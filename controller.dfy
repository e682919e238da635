/** The transaction controller of `pubnub_qt`: one HTTP exchange at a time,
    its timer, its cancellation, and the one outcome each finished reply emits. */
module PubnubQt {
  import opened Types
  import opened Outcome
  import Origin
  import PublishResult

  /** A QNetworkReply: one exchange issued by the network access manager. */
  class Reply {
    const url: string
    /** QNetworkReply::isFinished(). */
    var finished: bool
    /** abort() was called while the exchange was running. */
    var aborted: bool
    /** ignoreSslErrors() was called. */
    var sslErrorsIgnored: bool

    constructor (url: string)
      ensures this.url == url && !finished && !aborted && !sslErrorsIgnored
    {
      this.url := url;
      finished := false;
      aborted := false;
      sslErrorsIgnored := false;
    }
  }

  const DefaultTimeoutMs: int := 10000

  class Pubnub {
    /** PUBNUB_DYNAMIC_REPLY_BUFFER. */
    const dynamicBuffer: bool
    /** `sizeof http_reply` of a fixed reply buffer. */
    const capacity: nat
    /** The protocol core's parsers. */
    const core: ProtocolCore
    /** d_transaction_timeout_duration_ms. */
    const transactionTimeoutMs: int

    var origin: string
    var sslOpts: SslOpts
    var trans: Trans
    var reply: Reply?
    var timedOut: bool
    /** The transaction timer: running or stopped, and its last interval. */
    var timerRunning: bool
    var timerIntervalMs: int
    var httpCode: int

    // The protocol-core context: reply buffer, its length, message and channel cursors.
    var httpReply: array?<char>
    var httpBufLen: nat
    var messages: seq<string>
    var msgCursor: nat
    var channels: seq<string>
    var chanCursor: nat

    /** Every outcome signal emitted, in order. */
    ghost var outcomes: seq<Res>
    /** Every reply handed to deleteLater, in order. */
    ghost var released: seq<Reply>
    /** The reply each outcome answered, in order. */
    ghost var answered: seq<Reply>

    /** The reply buffer holds a NUL right after its `httpBufLen` bytes; a
        fixed buffer is always there, a dynamic one may be released. */
    ghost predicate BufferValid()
      reads this, httpReply
    {
      (httpReply == null ==> dynamicBuffer && httpBufLen == 0)
      && (httpReply != null ==> httpBufLen < httpReply.Length && httpReply[httpBufLen] == '\0')
      && (!dynamicBuffer ==> httpReply != null && httpReply.Length == capacity)
      && msgCursor <= |messages| && chanCursor <= |channels|
    }

    /** At most one active reply; each superseded one is released once. */
    ghost predicate Owned()
      reads this
    {
      (reply != null ==> reply !in released) && Distinct(released)
    }

    /** The timer runs exactly while the active reply is unfinished, with
        the configured interval, and such a reply has not timed out. */
    ghost predicate TimerValid()
      reads this, reply
    {
      (timerRunning <==> reply != null && !reply.finished)
      && (timerRunning ==> timerIntervalMs == transactionTimeoutMs && !timedOut)
    }

    /** Each outcome answers its own reply, and a running reply has not
        been answered yet: no reply gets a second outcome. */
    ghost predicate Answered()
      reads this, reply
    {
      Distinct(answered) && |answered| == |outcomes|
      && (reply != null && !reply.finished ==> reply !in answered)
    }

    ghost predicate Valid()
      reads this, reply, httpReply
    {
      BufferValid() && Owned() && TimerValid() && Answered()
    }

    /** The reply bytes in the buffer. */
    ghost function ReplyText(): seq<char>
      reads this, httpReply
      requires BufferValid()
    {
      if httpReply == null then [] else httpReply[..httpBufLen]
    }

    /** Whether a reply of `size` bytes fits the buffer, one byte being kept for the NUL. */
    predicate Fits(size: nat)
      reads this
    {
      dynamicBuffer || size < capacity
    }

    /** `dynamicBuffer` models PUBNUB_DYNAMIC_REPLY_BUFFER, `capacity` the
        size of a fixed buffer, `noSsl` QT_NO_SSL. */
    constructor (noSsl: bool, dynamicBuffer: bool, capacity: nat, core: ProtocolCore)
      requires !dynamicBuffer ==> capacity > 0
      ensures Valid()
      ensures this.dynamicBuffer == dynamicBuffer && this.capacity == capacity && SameCore(this.core, core)
      ensures transactionTimeoutMs == DefaultTimeoutMs
      ensures origin == (if noSsl then "http://pubsub.pubnub.com" else "https://pubsub.pubnub.com")
      ensures sslOpts == SslOpts(!noSsl, false, false)
      ensures trans == NoTrans && reply == null && !timedOut && !timerRunning && httpCode == 0
      ensures httpBufLen == 0 && (dynamicBuffer ==> httpReply == null) && (httpReply != null ==> fresh(httpReply))
      ensures messages == [] && channels == []
      ensures outcomes == [] && released == [] && answered == []
    {
      this.dynamicBuffer := dynamicBuffer;
      this.capacity := capacity;
      this.core := core;
      transactionTimeoutMs := DefaultTimeoutMs;
      origin := if noSsl then "http://pubsub.pubnub.com" else "https://pubsub.pubnub.com";
      sslOpts := SslOpts(!noSsl, false, false);
      trans := NoTrans;
      reply := null;
      timedOut := false;
      timerRunning := false;
      timerIntervalMs := 0;
      httpCode := 0;
      if dynamicBuffer {
        httpReply := null;
      } else {
        var buf := new char[capacity];
        buf[0] := '\0';
        httpReply := buf;
      }
      httpBufLen := 0;
      messages, msgCursor := [], 0;
      channels, chanCursor := [], 0;
      outcomes := [];
      released := [];
      answered := [];
    }

    /** startRequest: with a successful preparation, send the prepared
        `path` to the origin as a new reply, releasing the previous one,
        clearing the timed-out flag and starting the timer; otherwise do
        nothing. The preparation result is returned either way. */
    method StartRequest(result: Res, t: Trans, path: string) returns (r: Res)
      requires Valid()
      modifies this`trans, this`reply, this`released, this`timedOut, this`timerRunning, this`timerIntervalMs
      ensures Valid()
      ensures r == result
      ensures result != Started ==> unchanged(this)
      ensures result == Started ==>
                trans == t && fresh(reply) && reply.url == old(origin) + path
                && !reply.finished && !reply.aborted && !reply.sslErrorsIgnored
                && !timedOut && timerRunning && timerIntervalMs == transactionTimeoutMs
                && released == old(released) + (if old(reply) == null then [] else [old(reply)])
    {
      r := result;
      if result == Started {
        var url := origin + path;
        trans := t;
        ReplaceReply(url);
      }
    }

    /** The started branch of startRequest after the tag is set: release
        the previous reply, clear the flag, issue the new reply, start the timer. */
    method ReplaceReply(url: string)
      requires BufferValid() && Owned() && Answered()
      modifies this`reply, this`released, this`timedOut, this`timerRunning, this`timerIntervalMs
      ensures BufferValid() && Owned() && TimerValid() && Answered()
      ensures fresh(reply) && reply.url == url && !reply.finished && !reply.aborted && !reply.sslErrorsIgnored
      ensures !timedOut && timerRunning && timerIntervalMs == transactionTimeoutMs
      ensures released == old(released) + (if old(reply) == null then [] else [old(reply)])
    {
      var previous := reply;
      reply := null;
      if previous != null {
        DistinctAppend(released, previous);
        released := released + [previous];
      }
      timedOut := false;
      var next := new Reply(url);
      assert next !in released && next !in answered;
      reply := next;
      timerRunning, timerIntervalMs := true, transactionTimeoutMs;
    }

    /** What an abort leaves alone: the tag, the released replies, the
        origin and options, the timer interval, the status code, the message
        lists and the reply's TLS flag; the reply buffer stays or, in dynamic
        mode, is released, and a fixed buffer keeps every byte after the first. */
    twostate predicate AbortKeeps()
      reads this, reply, httpReply
    {
      trans == old(trans) && released == old(released)
      && origin == old(origin) && sslOpts == old(sslOpts) && timerIntervalMs == old(timerIntervalMs)
      && httpCode == old(httpCode) && ListsUnchanged()
      && reply == old(reply) && (reply != null ==> reply.sslErrorsIgnored == old(reply.sslErrorsIgnored))
      && (httpReply == old(httpReply) || (dynamicBuffer && httpReply == null))
      && (!dynamicBuffer && httpReply != null ==>
            httpReply == old(httpReply) && forall i :: 0 < i < httpReply.Length ==> httpReply[i] == old(httpReply[i]))
    }

    /** d_reply->abort(): Qt finishes a running reply at once with
        OperationCanceledError, which reaches httpFinished before abort
        returns; a reply that has finished already is left alone. */
    method AbortReply()
      requires BufferValid() && Owned() && Answered() && reply != null
      requires reply.finished ==> TimerValid()
      modifies this, reply, httpReply
      ensures Valid()
      ensures reply == old(reply) && reply.finished && AbortKeeps()
      ensures old(reply.finished) ==>
                unchanged(this, reply) && httpReply == old(httpReply) && (httpReply != null ==> unchanged(httpReply))
      ensures !old(reply.finished) ==>
                reply.aborted && !timerRunning && timedOut == old(timedOut)
                && answered == old(answered) + [old(reply)]
                && outcomes == old(outcomes) + [if old(timedOut) then Timeout else Cancelled]
                && httpBufLen == 0 && (httpReply != null ==> httpReply[0] == '\0')
    {
      if !reply.finished {
        reply.aborted := true;
        HttpFinished(OperationCanceledError, [], None);
      }
    }

    /** cancel: abort the active reply, if any, leaving the timed-out flag alone. */
    method Cancel()
      requires Valid()
      modifies this, reply, httpReply
      ensures Valid()
      ensures reply == old(reply) && timedOut == old(timedOut) && AbortKeeps()
      ensures old(reply) == null || old(reply.finished) ==>
                unchanged(this) && httpReply == old(httpReply) && (httpReply != null ==> unchanged(httpReply))
      ensures old(reply) != null && old(reply.finished) ==> unchanged(reply)
      ensures old(reply) != null && !old(reply.finished) ==>
                reply.aborted && reply.finished && !timerRunning
                && outcomes == old(outcomes) + [Cancelled] && answered == old(answered) + [old(reply)]
                && httpBufLen == 0 && (httpReply != null ==> httpReply[0] == '\0')
    {
      if reply != null {
        AbortReply();
      }
    }

    /** transactionTimeout: with an active reply, mark the transaction
        timed out and abort the reply. */
    method TransactionTimeout()
      requires Valid()
      modifies this, reply, httpReply
      ensures Valid()
      ensures reply == old(reply) && AbortKeeps()
      ensures old(reply) == null ==>
                unchanged(this) && httpReply == old(httpReply) && (httpReply != null ==> unchanged(httpReply))
      ensures old(reply) != null ==> timedOut && reply.finished && !timerRunning
      ensures old(reply) != null && old(reply.finished) ==>
                outcomes == old(outcomes) && answered == old(answered) && unchanged(reply)
                && httpReply == old(httpReply) && httpBufLen == old(httpBufLen)
                && (httpReply != null ==> unchanged(httpReply))
      ensures old(reply) != null && !old(reply.finished) ==>
                reply.aborted && outcomes == old(outcomes) + [Timeout] && answered == old(answered) + [old(reply)]
                && httpBufLen == 0 && (httpReply != null ==> httpReply[0] == '\0')
    {
      if reply != null {
        timedOut := true;
        AbortReply();
      }
    }

    /** httpFinished, for the active reply finishing with Qt error `error`,
        body `body` and HTTP status attribute `status`: stop the timer,
        then respond to the reply. Exactly one outcome is emitted. */
    method HttpFinished(error: int, body: seq<char>, status: Option<int>)
      requires BufferValid() && Owned() && Answered() && reply != null && !reply.finished
      modifies this`timerRunning, this`answered, reply`finished
      modifies this`httpBufLen, this`httpReply, httpReply, this`httpCode, this`outcomes
      modifies this`messages, this`msgCursor, this`channels, this`chanCursor
      ensures Valid()
      ensures answered == old(answered) + [old(reply)]
      ensures reply == old(reply) && reply.finished && !timerRunning
      ensures reply.aborted == old(reply.aborted) && reply.sslErrorsIgnored == old(reply.sslErrorsIgnored)
      ensures unchanged(this`trans, this`timedOut, this`origin, this`sslOpts, this`released, this`timerIntervalMs)
      ensures Responded(error, body, status)
    {
      timerRunning := false;
      reply.finished := true;
      RecordAnswer();
      Respond(error, body, status);
    }

    /** Log the active reply as answered; it was not answered before. */
    ghost method RecordAnswer()
      requires reply != null && Distinct(answered) && reply !in answered
      modifies this`answered
      ensures answered == old(answered) + [reply] && Distinct(answered)
    {
      DistinctAppend(answered, reply);
      answered := answered + [reply];
    }

    /** The effect of httpFinished on the reply buffer, the status code, the
        message lists and the outcome log. On an error the buffer is cleared
        first; the five classified errors are answered at once; every other
        case, no error included, goes to finish with the error code as its
        status code. */
    twostate predicate Responded(error: int, body: seq<char>, status: Option<int>)
      reads this, httpReply
    {
      BufferValid()
      && outcomes == old(outcomes) + [HttpFinishedResult(error, timedOut, Fits(|body|), trans, core, body)]
      && (TransportOutcome(error, timedOut).Some? ==>
            httpBufLen == 0 && (httpReply != null ==> httpReply[0] == '\0')
            && (dynamicBuffer ==> httpReply == null) && (!dynamicBuffer ==> httpReply == old(httpReply))
            && (!dynamicBuffer ==> forall i :: 0 < i < httpReply.Length ==> httpReply[i] == old(httpReply[i]))
            && httpCode == old(httpCode) && ListsUnchanged())
      && (TransportOutcome(error, timedOut).None? && Fits(|body|) ==>
            ReplyText() == body && httpReply != null && httpReply[|body|] == '\0'
            && (!dynamicBuffer ==>
                  httpReply == old(httpReply)
                  && forall i :: |body| < i < httpReply.Length ==> httpReply[i] == old(httpReply[i]))
            && (dynamicBuffer ==> fresh(httpReply))
            && httpCode == (if status.Some? then status.value else 0)
            && ListsAfterParse(body))
      && (TransportOutcome(error, timedOut).None? && !Fits(|body|) ==>
            !dynamicBuffer && httpReply == old(httpReply) && httpReply != null
            && httpCode == old(httpCode) && ListsUnchanged()
            && (error != NoError ==>
                  httpBufLen == 0 && httpReply[0] == '\0'
                  && forall i :: 0 < i < httpReply.Length ==> httpReply[i] == old(httpReply[i]))
            && (error == NoError ==> httpBufLen == old(httpBufLen) && unchanged(httpReply)))
    }

    method Respond(error: int, body: seq<char>, status: Option<int>)
      requires BufferValid()
      modifies this`httpBufLen, this`httpReply, httpReply, this`httpCode, this`outcomes
      modifies this`messages, this`msgCursor, this`channels, this`chanCursor
      ensures Responded(error, body, status)
    {
      if error != NoError {
        ClearReplyBuffer();
        var classified := TransportOutcome(error, timedOut);
        if classified.Some? {
          outcomes := outcomes + [classified.value];
          return;
        }
      }
      var res := Finish(body, error, status);
      outcomes := outcomes + [res];
    }

    /** The error path of httpFinished: no reply bytes, and a dynamic buffer released. */
    method ClearReplyBuffer()
      requires BufferValid()
      modifies this`httpBufLen, this`httpReply, httpReply
      ensures BufferValid()
      ensures httpBufLen == 0 && (httpReply != null ==> httpReply[0] == '\0')
      ensures dynamicBuffer ==> httpReply == null
      ensures !dynamicBuffer ==> httpReply == old(httpReply)
      ensures !dynamicBuffer ==> forall i :: 0 < i < httpReply.Length ==> httpReply[i] == old(httpReply[i])
    {
      httpBufLen := 0;
      if dynamicBuffer {
        httpReply := null;
      } else {
        httpReply[0] := '\0';
      }
    }

    /** The message and channel lists after a parse of `body`: those the
        dispatched parser sets, with cursors at the start, or the previous ones. */
    twostate predicate ListsAfterParse(body: seq<char>)
      reads this
    {
      match ParsedListsFor(trans, core, body)
      case Some(l) => messages == l.messages && msgCursor == 0 && channels == l.channels && chanCursor == 0
      case None => ListsUnchanged()
    }

    twostate predicate ListsUnchanged()
      reads this
    {
      messages == old(messages) && msgCursor == old(msgCursor)
      && channels == old(channels) && chanCursor == old(chanCursor)
    }

    /** finish: refuse a reply too big for a fixed buffer; otherwise copy it
        into the buffer with a NUL after it, run the parser of the current
        tag, record the HTTP status (0 when absent) and apply the override
        with the status code passed in. */
    method Finish(body: seq<char>, httpCodeIn: int, status: Option<int>) returns (r: Res)
      requires BufferValid()
      modifies this`httpBufLen, this`httpReply, httpReply, this`httpCode
      modifies this`messages, this`msgCursor, this`channels, this`chanCursor
      ensures BufferValid()
      ensures r == (if Fits(|body|) then StatusOverride(ParseResult(trans, core, body), httpCodeIn) else ReplyTooBig)
      ensures !Fits(|body|) ==> unchanged(this) && (httpReply != null ==> unchanged(httpReply))
      ensures Fits(|body|) ==>
                ReplyText() == body && httpReply != null && httpReply[|body|] == '\0'
                && (!dynamicBuffer ==>
                      httpReply == old(httpReply)
                      && forall i :: |body| < i < httpReply.Length ==> httpReply[i] == old(httpReply[i]))
                && (dynamicBuffer ==> fresh(httpReply))
                && httpCode == (if status.Some? then status.value else 0)
                && ListsAfterParse(body)
    {
      var n := |body|;
      if dynamicBuffer {
        var buf := new char[n + 1];
        forall i | 0 <= i < n {
          buf[i] := body[i];
        }
        buf[n] := '\0';
        httpReply := buf;
        httpBufLen := n;
      } else {
        if n >= httpReply.Length {
          return ReplyTooBig;
        }
        httpBufLen := n;
        forall i | 0 <= i < n {
          httpReply[i] := body[i];
        }
        httpReply[httpBufLen] := '\0';
      }
      assert httpReply[..n] == body;
      var pbres := ParseResult(trans, core, body);
      match ParsedListsFor(trans, core, body) {
        case Some(l) =>
          messages, msgCursor := l.messages, 0;
          channels, chanCursor := l.channels, 0;
        case None =>
      }
      httpCode := if status.Some? then status.value else 0;
      r := StatusOverride(pbres, httpCodeIn);
    }

    /** sslErrors: ignore the TLS errors of `r` exactly when the options
        waive the secure-connection requirement. */
    method SslErrors(r: Reply)
      modifies r`sslErrorsIgnored
      ensures r.sslErrorsIgnored == (old(r.sslErrorsIgnored) || sslOpts.ignoreSecureConnectionRequirement)
    {
      if sslOpts.ignoreSecureConnectionRequirement {
        r.sslErrorsIgnored := true;
      }
    }

    /** set_ssl_options: switch the origin's scheme and store the options. */
    method SetSslOptions(opts: SslOpts)
      requires Valid()
      modifies this`origin, this`sslOpts
      ensures Valid()
      ensures origin == Origin.ApplySslScheme(old(origin), opts.useSsl) && sslOpts == opts
    {
      if opts.useSsl {
        if Origin.StartsWith(origin, "http:") {
          origin := "https:" + origin[5..];
        }
      } else {
        if Origin.StartsWith(origin, "https:") {
          origin := "http:" + origin[6..];
        }
      }
      sslOpts := opts;
    }

    /** set_origin: keep an http(s) origin verbatim; otherwise prefix
        `http://` and re-apply the current SSL options. */
    method SetOrigin(requested: string)
      requires Valid()
      modifies this`origin, this`sslOpts
      ensures Valid()
      ensures origin == Origin.OriginFor(requested, old(sslOpts).useSsl) && sslOpts == old(sslOpts)
    {
      origin := requested;
      if !Origin.StartsWith(requested, "http:") && !Origin.StartsWith(requested, "https:") {
        origin := "http://" + origin;
        SetSslOptions(sslOpts);
      }
    }

    /** pbcc_get_msg: the next unread message, or none when all are read. */
    method NextMessage() returns (m: Option<string>)
      requires Valid()
      modifies this`msgCursor
      ensures Valid()
      ensures old(msgCursor) < |messages| ==> m == Some(messages[old(msgCursor)]) && msgCursor == old(msgCursor) + 1
      ensures old(msgCursor) == |messages| ==> m.None? && msgCursor == old(msgCursor)
    {
      if msgCursor < |messages| {
        m := Some(messages[msgCursor]);
        msgCursor := msgCursor + 1;
      } else {
        m := None;
      }
    }

    /** pbcc_get_channel: the channel of the next unread message, or none. */
    method NextChannel() returns (c: Option<string>)
      requires Valid()
      modifies this`chanCursor
      ensures Valid()
      ensures old(chanCursor) < |channels| ==> c == Some(channels[old(chanCursor)]) && chanCursor == old(chanCursor) + 1
      ensures old(chanCursor) == |channels| ==> c.None? && chanCursor == old(chanCursor)
    {
      if chanCursor < |channels| {
        c := Some(channels[chanCursor]);
        chanCursor := chanCursor + 1;
      } else {
        c := None;
      }
    }

    /** get: the next message, or the empty string when there is none. */
    method Get() returns (m: string)
      requires Valid()
      modifies this`msgCursor
      ensures Valid()
      ensures m == (if old(msgCursor) < |messages| then messages[old(msgCursor)] else "")
      ensures msgCursor == (if old(msgCursor) < |messages| then old(msgCursor) + 1 else old(msgCursor))
    {
      var next := NextMessage();
      m := if next.Some? then next.value else "";
    }

    /** get_all: every unread message, in arrival order; none is left unread. */
    method GetAll() returns (all: seq<string>)
      requires Valid()
      modifies this`msgCursor
      ensures Valid()
      ensures all == old(messages[msgCursor..]) && msgCursor == |messages|
    {
      all := [];
      ghost var start := msgCursor;
      while true
        invariant Valid() && start <= msgCursor
        invariant all == messages[start..msgCursor]
        decreases |messages| - msgCursor
      {
        var msg := NextMessage();
        if msg.None? {
          break;
        }
        all := all + [msg.value];
      }
    }

    /** get_all_channels: every unread channel, in order; none is left unread. */
    method GetAllChannels() returns (all: seq<string>)
      requires Valid()
      modifies this`chanCursor
      ensures Valid()
      ensures all == old(channels[chanCursor..]) && chanCursor == |channels|
    {
      all := [];
      ghost var start := chanCursor;
      while true
        invariant Valid() && start <= chanCursor
        invariant all == channels[start..chanCursor]
        decreases |channels| - chanCursor
      {
        var chan := NextChannel();
        if chan.None? {
          break;
        }
        all := all + [chan.value];
      }
    }

    /** last_publish_result over the current tag and reply buffer. */
    function LastPublishResult(): (r: string)
      reads this, httpReply
      ensures trans != Publish ==> r == ""
      ensures httpReply == null ==> r == ""
    {
      PublishResult.LastPublishResult(trans, if httpReply == null then None else Some(httpReply[..]))
    }

    /** last_http_code. */
    function LastHttpCode(): int
      reads this
    {
      httpCode
    }
  }
}
