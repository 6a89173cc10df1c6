/**
 * The daemon's connection to its server: request ids, the table of requests
 * awaiting a response, the writer side of `send_request` and the reader loop
 * that matches incoming responses to their waiters. The waiter type W stands
 * for the sending half of a one-shot channel; nothing here looks inside it.
 */
module Client {
  import opened Wrappers
  import opened Frame
  import opened Messages

  /** The ids the responses in rs answer. */
  function Ids(rs: seq<Response>): set<nat>
  {
    set r | r in rs :: r.id
  }

  /**
   * The pending table once response r has been matched: the entry under r's id
   * is gone and every other entry is kept; an unknown id changes nothing.
   */
  function Deliver<W>(pending: map<nat, W>, r: Response): (p: map<nat, W>)
    ensures r.id !in p
    ensures forall k :: k != r.id ==> (k in p <==> k in pending)
    ensures forall k :: k in p ==> p[k] == pending[k]
    ensures r.id !in pending ==> p == pending
  {
    pending - {r.id}
  }

  /** The responses carried by a run of payloads, in order; a payload that does not parse is dropped. */
  function ParseAll(payloads: seq<seq<Byte>>, parse: seq<Byte> -> Option<Response>): (rs: seq<Response>)
    ensures |rs| <= |payloads|
  {
    if payloads == [] then []
    else
      var last := payloads[|payloads| - 1];
      ParseAll(payloads[..|payloads| - 1], parse) + (match parse(last) case Some(r) => [r] case None => [])
  }

  /** The pending table after matching every response of rs, in order. */
  function DeliverAll<W>(pending: map<nat, W>, rs: seq<Response>): (p: map<nat, W>)
  {
    if rs == [] then pending
    else Deliver(DeliverAll(pending, rs[..|rs| - 1]), rs[|rs| - 1])
  }

  /**
   * The (waiter, response) hand-offs made while matching rs against the
   * pending table: a response goes to the waiter still registered under its id.
   */
  function Handoffs<W>(pending: map<nat, W>, rs: seq<Response>): (h: seq<(W, Response)>)
  {
    if rs == [] then []
    else
      var init := rs[..|rs| - 1];
      var r := rs[|rs| - 1];
      var before := DeliverAll(pending, init);
      Handoffs(pending, init) + (if r.id in before then [(before[r.id], r)] else [])
  }

  /** The request ids answered by a run of hand-offs. */
  function HandedIds<W>(h: seq<(W, Response)>): set<nat>
  {
    set i | 0 <= i < |h| :: h[i].1.id
  }

  /** Matching a run of responses removes exactly the ids they answer and keeps every other waiter. */
  lemma {:induction false} DeliverAllRemovesAnswered<W>(pending: map<nat, W>, rs: seq<Response>)
    ensures DeliverAll(pending, rs).Keys == pending.Keys - Ids(rs)
    ensures forall k :: k in DeliverAll(pending, rs) ==> DeliverAll(pending, rs)[k] == pending[k]
  {
    if rs != [] {
      var init := rs[..|rs| - 1];
      DeliverAllRemovesAnswered(pending, init);
      assert rs == init + [rs[|rs| - 1]];
      assert Ids(rs) == Ids(init) + {rs[|rs| - 1].id};
    }
  }

  /** Matching one more response appends at most one hand-off: to the waiter still registered under its id. */
  lemma HandoffsSnoc<W>(pending: map<nat, W>, rs: seq<Response>, r: Response)
    ensures var before := DeliverAll(pending, rs);
      Handoffs(pending, rs + [r])
      == Handoffs(pending, rs) + (if r.id in before then [(before[r.id], r)] else [])
    ensures DeliverAll(pending, rs + [r]) == Deliver(DeliverAll(pending, rs), r)
  {
    assert (rs + [r])[..|rs|] == rs;
  }

  /** Each hand-off gives a response of rs to the waiter registered under the response's id. */
  lemma {:induction false} HandoffsToRegistered<W>(pending: map<nat, W>, rs: seq<Response>)
    ensures var h := Handoffs(pending, rs);
      forall i :: 0 <= i < |h| ==> h[i].1 in rs && h[i].1.id in pending && h[i].0 == pending[h[i].1.id]
  {
    if rs != [] {
      var init := rs[..|rs| - 1];
      var r := rs[|rs| - 1];
      assert rs == init + [r];
      HandoffsToRegistered(pending, init);
      HandoffsSnoc(pending, init, r);
      DeliverAllRemovesAnswered(pending, init);
    }
  }

  /** No waiter is handed two responses: the hand-offs answer distinct ids. */
  lemma {:induction false} HandoffsOncePerId<W>(pending: map<nat, W>, rs: seq<Response>)
    ensures var h := Handoffs(pending, rs);
      forall i, j :: 0 <= i < j < |h| ==> h[i].1.id != h[j].1.id
  {
    if rs != [] {
      var init := rs[..|rs| - 1];
      var r := rs[|rs| - 1];
      assert rs == init + [r];
      var hi := Handoffs(pending, init);
      HandoffsOncePerId(pending, init);
      HandoffsSnoc(pending, init, r);
      if r.id in DeliverAll(pending, init) {
        HandoffsToRegistered(pending, init);
        DeliverAllRemovesAnswered(pending, init);
        assert r.id !in Ids(init);
        forall i | 0 <= i < |hi| ensures hi[i].1.id != r.id {
          assert hi[i].1 in init;
        }
      }
    }
  }

  /** Exactly the pending ids that some response of rs answers are handed a response. */
  lemma {:induction false} HandoffsAnswerPending<W>(pending: map<nat, W>, rs: seq<Response>)
    ensures HandedIds(Handoffs(pending, rs)) == pending.Keys * Ids(rs)
  {
    if rs != [] {
      var init := rs[..|rs| - 1];
      var r := rs[|rs| - 1];
      assert rs == init + [r];
      var hi := Handoffs(pending, init);
      HandoffsAnswerPending(pending, init);
      HandoffsSnoc(pending, init, r);
      DeliverAllRemovesAnswered(pending, init);
      assert Ids(rs) == Ids(init) + {r.id};
      if r.id in DeliverAll(pending, init) {
        HandedIdsSnoc(hi, (DeliverAll(pending, init)[r.id], r));
        assert HandedIds(Handoffs(pending, rs)) == pending.Keys * Ids(init) + {r.id};
      } else {
        assert Handoffs(pending, rs) == hi;
        assert r.id !in pending.Keys || r.id in Ids(init);
      }
    }
  }

  /** Appending one hand-off adds its response's id to the ids answered. */
  lemma HandedIdsSnoc<W>(h: seq<(W, Response)>, x: (W, Response))
    ensures HandedIds(h + [x]) == HandedIds(h) + {x.1.id}
  {
    var h' := h + [x];
    forall id | id in HandedIds(h') ensures id in HandedIds(h) + {x.1.id} {
      var i :| 0 <= i < |h'| && h'[i].1.id == id;
      if i < |h| { assert h[i] == h'[i]; }
    }
    forall id | id in HandedIds(h) + {x.1.id} ensures id in HandedIds(h') {
      if id == x.1.id {
        assert h'[|h|] == x;
      } else {
        var i :| 0 <= i < |h| && h[i].1.id == id;
        assert h'[i] == h[i];
      }
    }
  }

  /** How the wait for a response ends: a response arrives, the channel closes, or the wait times out. */
  datatype RecvOutcome = Received(response: Response) | ChannelClosed | TimedOut

  /**
   * The result `send_request` returns once its wait ends: a response is a
   * success only when its error field is empty; otherwise that error is returned.
   */
  function Complete(o: RecvOutcome): (r: Result<Response, string>)
    ensures r.Ok? <==> o.Received? && o.response.error == ""
    ensures r.Ok? ==> r.value == o.response
    ensures o.Received? && r.Err? ==> r.error == o.response.error
    ensures o.ChannelClosed? ==> r == Err("Channel error")
    ensures o.TimedOut? ==> r == Err("Request timeout")
  {
    match o
    case Received(response) =>
      if response.error != "" then Err(response.error) else Ok(response)
    case ChannelClosed => Err("Channel error")
    case TimedOut => Err("Request timeout")
  }

  /**
   * A request whose response frame comes back: the reader hands the response
   * to the request's own waiter and the pending table is as it was before the send.
   */
  lemma RequestRoundTrip<W>(pending: map<nat, W>, id: nat, tx: W, resp: Response,
                            payload: seq<Byte>, parse: seq<Byte> -> Option<Response>)
    requires id !in pending && resp.id == id
    requires |payload| < U32Limit && parse(payload) == Some(resp)
    ensures var rs := ParseAll(Frames(EncodeFrame(payload).value), parse);
      DeliverAll(pending[id := tx], rs) == pending && Handoffs(pending[id := tx], rs) == [(tx, resp)]
  {
    FramesOfEncoded([payload], []);
    assert EncodeAll([payload]) + [] == EncodeFrame(payload).value;
    assert Frames(EncodeFrame(payload).value) == [payload];
    ParseOne(payload, resp, parse);
    DeliverOne(pending, id, tx, resp);
  }

  /** A single payload that parses yields its one response. */
  lemma ParseOne(payload: seq<Byte>, resp: Response, parse: seq<Byte> -> Option<Response>)
    requires parse(payload) == Some(resp)
    ensures ParseAll([payload], parse) == [resp]
  {
    assert [payload][..0] == [];
  }

  /** Matching the one response to a freshly registered waiter hands it over and restores the table. */
  lemma DeliverOne<W>(pending: map<nat, W>, id: nat, tx: W, resp: Response)
    requires id !in pending && resp.id == id
    ensures DeliverAll(pending[id := tx], [resp]) == pending
    ensures Handoffs(pending[id := tx], [resp]) == [(tx, resp)]
  {
    assert [resp][..0] == [];
    assert pending[id := tx] - {id} == pending;
  }

  /** The daemon's side of the connection. */
  class RemoteFsClient<W> {
    /** The last request id handed out (0 before the first request). */
    var requestId: nat
    /** The waiter of every request still awaiting its response, by request id. */
    var pending: map<nat, W>
    /** Every byte written to the stream so far. */
    var outbound: seq<Byte>
    /** Every response handed to a waiter so far, with that waiter. */
    var delivered: seq<(W, Response)>

    /** Only ids already handed out can be pending. */
    ghost predicate Valid()
      reads this
    {
      forall id :: id in pending ==> 1 <= id <= requestId
    }

    constructor ()
      ensures Valid()
      ensures requestId == 0 && pending == map[] && outbound == [] && delivered == []
    {
      requestId := 0;
      pending := map[];
      outbound := [];
      delivered := [];
    }

    /**
     * Send one request: take the next id, register the waiter under it, then
     * write the request's frame. A payload too long for the u32 prefix is not
     * written and is reported as an error; its waiter stays registered, as the
     * waiter is registered before the request is encoded.
     */
    method SendRequest(operation: string, path: string, data: Option<seq<Byte>>,
                       offset: Option<U64>, size: Option<U64>, tx: W,
                       serialize: Request -> seq<Byte>)
      returns (id: nat, sent: Result<Request, string>)
      requires Valid()
      modifies this
      ensures Valid()
      ensures id == old(requestId) + 1 && requestId == id
      ensures id !in old(pending) && forall k :: k in old(pending) ==> k < id
      ensures pending == old(pending)[id := tx]
      ensures var request := Request(id, operation, path, data, offset, size);
        match EncodeFrame(serialize(request))
        case Some(frame) => sent == Ok(request) && outbound == old(outbound) + frame
        case None => sent.Err? && outbound == old(outbound)
      ensures delivered == old(delivered)
    {
      requestId := requestId + 1;
      id := requestId;
      pending := pending[id := tx];
      var request := Request(id, operation, path, data, offset, size);
      var payload := serialize(request);
      if |payload| < U32Limit {
        var prefix := Prefix(|payload|);
        outbound := outbound + prefix;
        outbound := outbound + payload;
        assert EncodeFrame(payload).value == prefix + payload;
        sent := Ok(request);
      } else {
        sent := Err("frame length exceeds the u32 prefix");
      }
    }

    /**
     * Hand a decoded response to the waiter registered under its id, removing
     * that entry; a response whose id is not pending is dropped.
     */
    method Dispatch(response: Response)
      requires Valid()
      modifies this`pending, this`delivered
      ensures Valid()
      ensures pending == Deliver(old(pending), response)
      ensures delivered == old(delivered)
        + (if response.id in old(pending) then [(old(pending)[response.id], response)] else [])
    {
      if response.id in pending {
        delivered := delivered + [(pending[response.id], response)];
        pending := pending - {response.id};
      }
    }

    /**
     * Read frames off the stream until one is incomplete: each frame whose
     * payload parses as a response removes that response's id from the
     * pending table and hands the response to the waiter registered under
     * it; responses with unknown ids and payloads that do not parse are
     * dropped. Returns the bytes left unread, which hold no complete frame.
     */
    method ReaderLoop(stream: seq<Byte>, parse: seq<Byte> -> Option<Response>) returns (unread: seq<Byte>)
      requires Valid()
      modifies this
      ensures Valid()
      ensures unread == Leftover(stream) && DecodeFrame(unread).None?
      ensures stream == EncodeAll(Frames(stream)) + unread
      ensures pending == DeliverAll(old(pending), ParseAll(Frames(stream), parse))
      ensures delivered == old(delivered) + Handoffs(old(pending), ParseAll(Frames(stream), parse))
      ensures requestId == old(requestId) && outbound == old(outbound)
    {
      unread := stream;
      ghost var done: seq<seq<Byte>> := [];
      ghost var frames, leftover := Frames(stream), Leftover(stream);
      while true
        invariant frames == done + Frames(unread)
        invariant leftover == Leftover(unread)
        invariant pending == DeliverAll(old(pending), ParseAll(done, parse))
        invariant delivered == old(delivered) + Handoffs(old(pending), ParseAll(done, parse))
        invariant requestId == old(requestId) && outbound == old(outbound)
        invariant Valid()
        decreases |unread|
      {
        var frame := ReadFrame(unread);
        if frame.None? {
          break;
        }
        var payload := frame.value.payload;
        MatchStep(old(pending), done, payload, parse);
        ReaderAdvance(unread, done, frames, leftover);
        unread, done := frame.value.rest, done + [payload];
        match parse(payload)
        case Some(response) =>
          Dispatch(response);
        case None =>
      }
      ReaderStops(stream, unread, done, frames, leftover);
    }
  }

  /**
   * Taking the next complete frame off the unread bytes moves its payload
   * from the frames ahead to the frames done, and leaves the leftover alone.
   */
  lemma ReaderAdvance(unread: seq<Byte>, done: seq<seq<Byte>>, frames: seq<seq<Byte>>, leftover: seq<Byte>)
    requires DecodeFrame(unread).Some?
    requires frames == done + Frames(unread) && leftover == Leftover(unread)
    ensures var d := DecodeFrame(unread).value;
      frames == (done + [d.payload]) + Frames(d.rest) && leftover == Leftover(d.rest)
  {
  }

  /** Once no complete frame is left, the frames taken are all of them and the rest is the leftover. */
  lemma ReaderStops(stream: seq<Byte>, unread: seq<Byte>, done: seq<seq<Byte>>,
                    frames: seq<seq<Byte>>, leftover: seq<Byte>)
    requires DecodeFrame(unread).None?
    requires frames == Frames(stream) && leftover == Leftover(stream)
    requires frames == done + Frames(unread) && leftover == Leftover(unread)
    ensures done == Frames(stream) && unread == Leftover(stream)
    ensures stream == EncodeAll(Frames(stream)) + unread
  {
    assert done + [] == done;
    FramesCover(stream);
  }

  /**
   * `read_exact` on a cursor: fill a buffer of n bytes from the stream,
   * starting at pos, one byte at a time. It succeeds exactly when the stream
   * holds n more bytes. On a short stream `read_exact` leaves the buffer's
   * contents unspecified; this model chooses to return the bytes that were left.
   */
  method ReadExact(stream: seq<Byte>, pos: nat, n: nat) returns (buf: seq<Byte>, next: nat, ok: bool)
    requires pos <= |stream|
    ensures ok <==> pos + n <= |stream|
    ensures ok ==> buf == stream[pos..pos + n] && next == pos + n
    ensures !ok ==> buf == stream[pos..] && next == |stream|
  {
    buf, next := [], pos;
    while |buf| < n && next < |stream|
      invariant pos <= next <= |stream|
      invariant buf == stream[pos..next] && |buf| <= n
      decreases n - |buf|
    {
      buf, next := buf + [stream[next]], next + 1;
    }
    ok := |buf| == n;
  }

  /**
   * Read one frame off the head of a stream as the reader loop does: fill the
   * four-byte length buffer, then a buffer of the length it declares. None
   * when either read runs short.
   */
  method ReadFrame(stream: seq<Byte>) returns (frame: Option<Decoded>)
    ensures frame == DecodeFrame(stream)
  {
    var lengthBuf, pos, ok := ReadExact(stream, 0, PrefixLen);
    if !ok {
      return None;
    }
    var length := FromLe(lengthBuf);
    var messageBuf, next, filled := ReadExact(stream, pos, length);
    if !filled {
      return None;
    }
    frame := Some(Decoded(messageBuf, stream[next..]));
  }

  /**
   * One more payload: if it parses, the table and the hand-offs advance by
   * matching its response; otherwise nothing changes.
   */
  lemma MatchStep<W>(pending: map<nat, W>, done: seq<seq<Byte>>, payload: seq<Byte>,
                     parse: seq<Byte> -> Option<Response>)
    ensures var rs := ParseAll(done, parse);
      var rs' := ParseAll(done + [payload], parse);
      var before := DeliverAll(pending, rs);
      match parse(payload)
      case Some(r) =>
        DeliverAll(pending, rs') == Deliver(before, r)
        && Handoffs(pending, rs') == Handoffs(pending, rs) + (if r.id in before then [(before[r.id], r)] else [])
      case None => rs' == rs
  {
    var rs := ParseAll(done, parse);
    ParseAllSnoc(done, payload, parse);
    match parse(payload)
    case Some(r) =>
      assert ParseAll(done + [payload], parse) == rs + [r];
      HandoffsSnoc(pending, rs, r);
    case None =>
      assert ParseAll(done + [payload], parse) == rs;
  }

  /** The responses parsed are exactly those of the payloads that parse: none is lost, none invented. */
  lemma {:induction false} ParseAllMembers(payloads: seq<seq<Byte>>, parse: seq<Byte> -> Option<Response>)
    ensures forall r :: r in ParseAll(payloads, parse) <==> exists i :: 0 <= i < |payloads| && parse(payloads[i]) == Some(r)
  {
    if payloads != [] {
      var init := payloads[..|payloads| - 1];
      ParseAllMembers(init, parse);
      forall i | 0 <= i < |init| ensures init[i] == payloads[i] {}
    }
  }

  /**
   * Parsing keeps the order of the payloads: the responses of a concatenation
   * are those of its first part followed by those of its second.
   */
  lemma {:induction false} ParseAllAppend(a: seq<seq<Byte>>, b: seq<seq<Byte>>, parse: seq<Byte> -> Option<Response>)
    ensures ParseAll(a + b, parse) == ParseAll(a, parse) + ParseAll(b, parse)
    decreases |b|
  {
    if b == [] {
      assert a + b == a;
    } else {
      var init, p := b[..|b| - 1], b[|b| - 1];
      assert b == init + [p];
      assert a + b == (a + init) + [p];
      ParseAllAppend(a, init, parse);
      ParseAllSnoc(a + init, p, parse);
      ParseAllSnoc(init, p, parse);
    }
  }

  /** Parsing one more payload appends its response, if it has one. */
  lemma ParseAllSnoc(payloads: seq<seq<Byte>>, p: seq<Byte>, parse: seq<Byte> -> Option<Response>)
    ensures ParseAll(payloads + [p], parse)
         == ParseAll(payloads, parse) + (match parse(p) case Some(r) => [r] case None => [])
  {
    assert (payloads + [p])[..|payloads|] == payloads;
  }
}
