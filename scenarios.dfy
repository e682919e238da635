/** Whole transactions driven through the controller, event by event, the
    way a client of `pubnub_qt` and the Qt event loop would drive them. */
module Scenarios {
  import opened Types
  import opened Outcome
  import Origin
  import PublishResult
  import opened PubnubQt

  /** A fresh controller with a fixed reply buffer of `capacity` bytes that
      has started one request for tag `t`. */
  method StartedFixedRequest(core: ProtocolCore, capacity: nat, t: Trans) returns (p: Pubnub)
    requires capacity > 0
    ensures fresh(p) && fresh(p.reply) && fresh(p.httpReply) && p.Valid()
    ensures !p.dynamicBuffer && p.capacity == capacity && p.httpReply != null && p.httpBufLen == 0
    ensures p.httpCode == 0 && p.trans == t && !p.reply.finished && !p.timedOut && p.outcomes == []
  {
    p := new Pubnub(false, false, capacity, core);
    var r := p.StartRequest(Started, t, "/request");
  }

  /** A fresh controller with a dynamic reply buffer that has started one
      request for tag `t`. */
  method StartedRequest(core: ProtocolCore, t: Trans) returns (p: Pubnub)
    ensures fresh(p) && fresh(p.reply) && p.Valid() && SameCore(p.core, core)
    ensures p.dynamicBuffer && p.httpReply == null && p.httpCode == 0
    ensures p.trans == t && !p.reply.finished && !p.timedOut
    ensures p.outcomes == [] && p.released == [] && p.messages == [] && p.channels == []
  {
    p := new Pubnub(false, true, 0, core);
    var r := p.StartRequest(Started, t, "/request");
  }

  /** A time request whose timer fires: the abort is reported as `Timeout`. */
  method TimedOutRequest(core: ProtocolCore) returns (p: Pubnub)
    ensures fresh(p) && fresh(p.reply) && p.httpReply == null
    ensures p.Valid() && p.outcomes == [Timeout] && p.released == []
    ensures p.reply != null && p.reply.aborted && p.timedOut && !p.timerRunning && p.trans == Time
  {
    p := StartedRequest(core, Time);
    p.TransactionTimeout();
  }

  /** After a timed-out request the next one clears the flag, so
      cancelling it is reported as `Cancelled`; the first reply has been
      released and the second is the active one. */
  method TimeoutThenCancel(core: ProtocolCore) returns (p: Pubnub)
    ensures p.outcomes == [Timeout, Cancelled]
    ensures |p.released| == 1 && p.reply != null && p.reply !in p.released
    ensures !p.timedOut && !p.timerRunning && p.trans == Time
  {
    p := TimedOutRequest(core);
    var r := p.StartRequest(Started, Time, "/time/0");
    p.Cancel();
  }

  /** A failed preparation starts nothing: no reply, no timer, no outcome. */
  method FailedPreparation(core: ProtocolCore) returns (p: Pubnub, r: Res)
    ensures r == OtherResult(7)
    ensures p.reply == null && !p.timerRunning && p.trans == NoTrans && p.outcomes == []
  {
    p := new Pubnub(false, true, 0, core);
    r := p.StartRequest(OtherResult(7), Publish, "/publish");
  }

  /** A publish request finished with no error or with Qt's
      ContentNotFoundError (HTTP 404), with a publish parser that accepts
      the body: the outcome is `Ok` either way, since finish receives the
      Qt error code, and the HTTP status is recorded. */
  method PublishExchange(core: ProtocolCore, error: int, body: seq<char>, status: int) returns (p: Pubnub)
    requires error == NoError || error == ContentNotFoundError
    requires core.result(PublishParser, body) == Ok
    ensures p.outcomes == [Ok] && p.LastHttpCode() == status && p.trans == Publish
    ensures p.httpReply != null && |body| < p.httpReply.Length
    ensures p.httpReply[..|body|] == body && p.httpReply[|body|] == '\0'
  {
    p := StartedRequest(core, Publish);
    assert TransportOutcome(error, false).None? && p.Fits(|body|);
    QtContentErrorsPassOverride(ContentNotFoundError);
    assert StatusOverride(p.core.result(PublishParser, body), error) == Ok;
    p.HttpFinished(error, body, Some(status));
  }

  /** An HTTP 404 with an accepted publish body is reported as `Ok`, while
      the recorded HTTP code is 404. */
  method NotFoundPublish(core: ProtocolCore, body: seq<char>) returns (p: Pubnub)
    requires core.result(PublishParser, body) == Ok
    ensures p.outcomes == [Ok] && p.LastHttpCode() == 404
  {
    p := PublishExchange(core, ContentNotFoundError, body, 404);
  }

  /** A subscribe reply the parser accepts is reported as `Ok`, one it
      rejects as `FormatError`; the messages the parser extracted are then
      drained in arrival order, and none is left unread. */
  method SubscribeAndDrain(core: ProtocolCore, body: seq<char>, parsed: ParsedLists) returns (p: Pubnub, all: seq<string>)
    requires core.lists(Checked(SubscribeParser), body) == Some(parsed)
    ensures p.outcomes == [if core.check(SubscribeParser, body) == 0 then Ok else FormatError]
    ensures all == parsed.messages && p.msgCursor == |p.messages|
  {
    p := StartedRequest(core, Subscribe);
    p.HttpFinished(NoError, body, Some(200));
    all := p.GetAll();
  }

  /** A reply of exactly the fixed buffer's capacity leaves no room for the
      NUL and is refused as `ReplyTooBig`, keeping the earlier reply text. */
  method ExactCapacityReplyTooBig(core: ProtocolCore) returns (p: Pubnub)
    ensures p.outcomes == [ReplyTooBig] && p.httpBufLen == 0 && p.httpCode == 0
  {
    p := StartedFixedRequest(core, 4, History);
    p.HttpFinished(NoError, "[[]]", Some(200));
  }

  /** A publish into a fixed buffer of 16 bytes, answered with `body`
      without error: the buffer holds `body` and a NUL. */
  method FixedBufferPublish(core: ProtocolCore, body: string) returns (p: Pubnub)
    requires |body| < 16
    ensures fresh(p) && fresh(p.httpReply) && p.Valid()
    ensures !p.dynamicBuffer && p.httpReply != null && p.httpReply.Length == 16
    ensures p.httpReply[..|body| + 1] == body + ['\0']
  {
    p := StartedFixedRequest(core, 16, Publish);
    p.HttpFinished(NoError, body, Some(200));
    assert p.httpReply[..|body| + 1] == p.httpReply[..|body|] + [p.httpReply[|body|]];
  }

  /** A further publish into the fixed buffer of `p`, answered with `body`
      without error: the reply overwrites its own bytes and the NUL after
      them, and the rest of the buffer keeps its bytes. */
  method FixedBufferRepublish(p: Pubnub, body: string)
    requires p.Valid() && !p.dynamicBuffer && |body| < p.capacity
    modifies p, p.httpReply
    ensures p.Valid() && p.httpReply != null && p.httpReply == old(p.httpReply)
    ensures p.httpReply[..|body|] == body && p.httpReply[|body|] == '\0'
    ensures forall i :: |body| < i < p.httpReply.Length ==> p.httpReply[i] == old(p.httpReply[i])
  {
    var r := p.StartRequest(Started, Publish, "/publish");
    p.HttpFinished(NoError, body, Some(200));
  }

  /** Two publishes into one fixed buffer, answered `[1,stale` and then
      `[1`: the second reply overwrites its own bytes and the NUL after
      them and nothing more, so the buffer starts `[1\0stale\0`.
      last_publish_result as written returns `stale` there; the corrected
      one returns `""`. */
  method StaleBytesAfterShortReply(core: ProtocolCore) returns (p: Pubnub)
    ensures p.httpReply != null && p.httpReply.Length == 16
    ensures p.httpReply[..9] == "[1\0stale\0"
    ensures PublishResult.AsWrittenPublishResult(p.httpReply[..]) == Some("stale")
    ensures p.LastPublishResult() == ""
  {
    p := FixedBufferPublish(core, "[1,stale");
    ghost var earlier := p.httpReply[..];
    FixedBufferRepublish(p, "[1");
    assert forall i :: 2 < i < 16 ==> p.httpReply[i] == earlier[i];
    assert p.httpReply[..9] == "[1\0stale\0";
    PublishResult.AsWrittenAfterShorterReply(p.httpReply[..]);
  }

  /** The usual publish reply `[1,"Sent","14178940?"]`, finished without error:
      last_publish_result gives the text after `[1,`. */
  method PublishReply(core: ProtocolCore) returns (p: Pubnub)
    requires core.result(PublishParser, "[1,\"Sent\",\"14178940?\"]") == Ok
    ensures p.outcomes == [Ok] && p.LastHttpCode() == 200
    ensures p.LastPublishResult() == "\"Sent\",\"14178940?\"]"
  {
    var body := "[1,\"Sent\",\"14178940?\"]";
    p := PublishExchange(core, NoError, body, 200);
    PublishResult.CStringUnique(p.httpReply[..], body);
    PublishResult.LastPublishResultReadsCString(Publish, p.httpReply[..]);
    PublishResult.PublishReplyExample();
  }

  /** A bare host name under the default SSL choice gets `https://`;
      switching SSL off turns it into `http://`. */
  method OriginSwitch(core: ProtocolCore) returns (p: Pubnub, withSsl: string)
    ensures withSsl == "https://example.com"
    ensures p.origin == "http://example.com" && !p.sslOpts.useSsl
  {
    p := new Pubnub(false, true, 0, core);
    p.SetOrigin("example.com");
    Origin.ExampleBareHost();
    withSsl := p.origin;
    Origin.ExampleOriginSwitch();
    p.SetSslOptions(SslOpts(false, false, false));
  }
}
