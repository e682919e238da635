/** The decision tables of `httpFinished` and `finish`: how a transport
    error is classified, which protocol-core parser a finished reply is
    handed to, and when the transport code overrides the parse result. */
module Outcome {
  import opened Types

  // QNetworkReply::NetworkError values (Qt 5) that httpFinished tells apart.
  const NoError: int := 0
  const ConnectionRefusedError: int := 1
  const HostNotFoundError: int := 3
  const TimeoutError: int := 4
  const OperationCanceledError: int := 5
  /** What Qt reports for an HTTP 404 reply. */
  const ContentNotFoundError: int := 203
  const ProtocolUnknownError: int := 301

  /** The errors httpFinished answers itself, without calling finish. */
  const ClassifiedErrors: set<int> :=
    {OperationCanceledError, TimeoutError, HostNotFoundError, ConnectionRefusedError, ProtocolUnknownError}

  /** The results only the transport-error path emits. */
  predicate IsTransportFailure(r: Res) {
    r.Timeout? || r.Cancelled? || r.ConnectionTimeout? || r.AddrResolutionFailed? || r.ConnectFailed?
  }

  /** The switch of httpFinished: `Some(r)` when the error is answered with
      `r` at once, `None` when the reply goes on to finish. */
  function TransportOutcome(error: int, timedOut: bool): (r: Option<Res>)
    ensures r.None? <==> error == NoError || error !in ClassifiedErrors
    ensures r.Some? ==> IsTransportFailure(r.value)
    ensures error == OperationCanceledError ==> r == Some(if timedOut then Timeout else Cancelled)
    ensures error == TimeoutError ==> r == Some(ConnectionTimeout)
    ensures error == HostNotFoundError ==> r == Some(AddrResolutionFailed)
    ensures error == ConnectionRefusedError || error == ProtocolUnknownError ==> r == Some(ConnectFailed)
  {
    if error == NoError then None
    else if error == OperationCanceledError then Some(if timedOut then Timeout else Cancelled)
    else if error == TimeoutError then Some(ConnectionTimeout)
    else if error == HostNotFoundError then Some(AddrResolutionFailed)
    else if error == ConnectionRefusedError || error == ProtocolUnknownError then Some(ConnectFailed)
    else None
  }

  /** The timed-out flag decides the outcome of an aborted reply and of nothing else. */
  lemma TimedOutFlagDecidesOnlyAbort(error: int)
    ensures TransportOutcome(error, true) != TransportOutcome(error, false) <==> error == OperationCanceledError
    ensures TransportOutcome(OperationCanceledError, true) == Some(Timeout)
    ensures TransportOutcome(OperationCanceledError, false) == Some(Cancelled)
  {
  }

  // ---------------------------------------------------------------- parsers

  /** Protocol-core parsers that report well-formedness as an int (0 = well formed). */
  datatype CheckedParser = SubscribeParser | TimeParser | HistoryParser | PresenceParser

  /** Protocol-core parsers whose `pubnub_res` is the transaction's result. */
  datatype DirectParser = PublishParser | ChannelRegistryParser

  datatype Parser = Checked(checked: CheckedParser) | Direct(direct: DirectParser)

  /** The message and channel lists a parser leaves in the context. */
  datatype ParsedLists = ParsedLists(messages: seq<string>, channels: seq<string>)

  /** The protocol core's parsers, uninterpreted: each is a function of the
      reply bytes. `lists` gives `None` when a parser leaves the context's
      message and channel lists as they were. */
  datatype ProtocolCore = ProtocolCore(
    check: (CheckedParser, seq<char>) -> int,
    result: (DirectParser, seq<char>) -> Res,
    lists: (Parser, seq<char>) -> Option<ParsedLists>)

  /** Two cores whose parsers agree on every input. */
  ghost predicate SameCore(a: ProtocolCore, b: ProtocolCore) {
    (forall p, bytes :: a.check(p, bytes) == b.check(p, bytes))
    && (forall p, bytes :: a.result(p, bytes) == b.result(p, bytes))
    && (forall p, bytes :: a.lists(p, bytes) == b.lists(p, bytes))
  }

  /** The dispatch table: which parser finish runs for a transaction. */
  function ParserFor(t: Trans): Option<Parser> {
    match t
    case Subscribe => Some(Checked(SubscribeParser))
    case Publish => Some(Direct(PublishParser))
    case Time => Some(Checked(TimeParser))
    case History => Some(Checked(HistoryParser))
    case Leave | HereNow | GlobalHereNow | WhereNow | SetState | StateGet => Some(Checked(PresenceParser))
    case RemoveChannelGroup | RemoveChannelFromGroup | AddChannelToGroup | ListChannelGroup =>
      Some(Direct(ChannelRegistryParser))
    case NoTrans => None
  }

  /** Only the empty tag has no parser; every other parser serves exactly
      the tags named here, the presence tags sharing one parser and the
      channel-registry tags another. */
  lemma ParserForTable(t: Trans)
    ensures ParserFor(t).None? <==> t == NoTrans
    ensures ParserFor(t) == Some(Checked(SubscribeParser)) <==> t == Subscribe
    ensures ParserFor(t) == Some(Checked(TimeParser)) <==> t == Time
    ensures ParserFor(t) == Some(Checked(HistoryParser)) <==> t == History
    ensures ParserFor(t) == Some(Direct(PublishParser)) <==> t == Publish
    ensures ParserFor(t) == Some(Checked(PresenceParser)) <==>
              t.Leave? || t.HereNow? || t.GlobalHereNow? || t.WhereNow? || t.SetState? || t.StateGet?
    ensures ParserFor(t) == Some(Direct(ChannelRegistryParser)) <==>
              t.RemoveChannelGroup? || t.RemoveChannelFromGroup? || t.AddChannelToGroup? || t.ListChannelGroup?
  {
  }

  /** A checked parser's status as a result. */
  function CheckedResult(status: int): (r: Res)
    ensures r == Ok <==> status == 0
    ensures r != Ok ==> r == FormatError
  {
    if status != 0 then FormatError else Ok
  }

  /** The switch on `d_trans` in finish, case by case as the source writes
      it; it runs the parser the dispatch table names, and a tag without
      one is `Ok`. */
  function ParseResult(t: Trans, core: ProtocolCore, reply: seq<char>): (r: Res)
    ensures ParserFor(t).None? ==> r == Ok
    ensures ParserFor(t).Some? && ParserFor(t).value.Checked? ==>
              r == CheckedResult(core.check(ParserFor(t).value.checked, reply))
    ensures ParserFor(t).Some? && ParserFor(t).value.Direct? ==>
              r == core.result(ParserFor(t).value.direct, reply)
  {
    match t
    case Subscribe => CheckedResult(core.check(SubscribeParser, reply))
    case Publish => core.result(PublishParser, reply)
    case Time => CheckedResult(core.check(TimeParser, reply))
    case History => CheckedResult(core.check(HistoryParser, reply))
    case Leave | HereNow | GlobalHereNow | WhereNow | SetState | StateGet =>
      CheckedResult(core.check(PresenceParser, reply))
    case RemoveChannelGroup | RemoveChannelFromGroup | AddChannelToGroup | ListChannelGroup =>
      core.result(ChannelRegistryParser, reply)
    case NoTrans => Ok
  }

  /** The switch agrees with the dispatch table: a checked parser yields
      `Ok` exactly when it reports 0 and `FormatError` otherwise, a direct
      parser's result is passed through, and a tag without a parser is `Ok`. */
  lemma ParseResultFollowsTable(t: Trans, core: ProtocolCore, reply: seq<char>)
    ensures ParserFor(t).None? ==> ParseResult(t, core, reply) == Ok
    ensures ParserFor(t).Some? && ParserFor(t).value.Checked? ==>
              var status := core.check(ParserFor(t).value.checked, reply);
              (ParseResult(t, core, reply) == Ok <==> status == 0)
              && (ParseResult(t, core, reply) == FormatError <==> status != 0)
    ensures ParserFor(t).Some? && ParserFor(t).value.Direct? ==>
              ParseResult(t, core, reply) == core.result(ParserFor(t).value.direct, reply)
  {
  }

  /** The result depends on nothing but the dispatched parser: two cores
      that agree on that one parser give the same result. */
  lemma ParseResultUsesOnlyDispatchedParser(t: Trans, a: ProtocolCore, b: ProtocolCore, reply: seq<char>)
    requires ParserFor(t).Some? && ParserFor(t).value.Checked? ==>
               a.check(ParserFor(t).value.checked, reply) == b.check(ParserFor(t).value.checked, reply)
    requires ParserFor(t).Some? && ParserFor(t).value.Direct? ==>
               a.result(ParserFor(t).value.direct, reply) == b.result(ParserFor(t).value.direct, reply)
    ensures ParseResult(t, a, reply) == ParseResult(t, b, reply)
  {
  }

  /** The lists a finished reply leaves in the context, if its parser sets them. */
  function ParsedListsFor(t: Trans, core: ProtocolCore, reply: seq<char>): Option<ParsedLists> {
    match ParserFor(t)
    case None => None
    case Some(p) => core.lists(p, reply)
  }

  // ------------------------------------------------------- status override

  /** C's `int` division, which truncates toward zero. */
  function CDiv(a: int, b: int): (q: int)
    requires b > 0
    ensures a >= 0 ==> q * b <= a < q * b + b
    ensures a < 0 ==> q * b - b < a <= q * b
  {
    if a >= 0 then a / b else -((-a) / b)
  }

  /** The last rule of finish: an `Ok` parse becomes `HttpError` when the
      code is nonzero and outside 200..299; any other parse result stays. */
  function StatusOverride(pbres: Res, httpCode: int): (r: Res)
    ensures pbres != Ok ==> r == pbres
    ensures pbres == Ok ==> (r == HttpError <==> httpCode != 0 && !(200 <= httpCode < 300))
    ensures pbres == Ok ==> r == Ok || r == HttpError
  {
    if pbres == Ok && httpCode != 0 && CDiv(httpCode, 100) != 2 then HttpError else pbres
  }

  /** The override only ever turns `Ok` into `HttpError`. */
  lemma OverrideOnlyReplacesOk(pbres: Res, httpCode: int)
    ensures StatusOverride(pbres, httpCode) != pbres ==> pbres == Ok && StatusOverride(pbres, httpCode) == HttpError
  {
  }

  /** finish receives the Qt error code, not the HTTP status: every code
      in 200..299 (Qt's content errors, HTTP 404 being 203) passes the override. */
  lemma QtContentErrorsPassOverride(error: int)
    requires 200 <= error < 300
    ensures StatusOverride(Ok, error) == Ok
  {
  }

  // ------------------------------------------------------- whole outcome

  /** The outcome httpFinished emits: the transport classification, or else
      finish's result, where `fits` says whether the reply fits the buffer
      and the error code is passed to finish as its status code. */
  function HttpFinishedResult(error: int, timedOut: bool, fits: bool, t: Trans, core: ProtocolCore, body: seq<char>): (r: Res)
    ensures TransportOutcome(error, timedOut).Some? ==> r == TransportOutcome(error, timedOut).value
    ensures TransportOutcome(error, timedOut).None? && !fits ==> r == ReplyTooBig
    ensures TransportOutcome(error, timedOut).None? && fits ==>
              (r == ParseResult(t, core, body) || (ParseResult(t, core, body) == Ok && r == HttpError))
              && (error == NoError ==> r == ParseResult(t, core, body))
  {
    match TransportOutcome(error, timedOut)
    case Some(r) => r
    case None => if !fits then ReplyTooBig else StatusOverride(ParseResult(t, core, body), error)
  }

  /** An aborted reply is `Timeout` or `Cancelled` by the flag alone,
      whatever the body, the tag or the parsers. */
  lemma AbortOutcomeByFlag(timedOut: bool, fits: bool, t: Trans, core: ProtocolCore, body: seq<char>)
    ensures HttpFinishedResult(OperationCanceledError, timedOut, fits, t, core, body)
            == if timedOut then Timeout else Cancelled
  {
  }

  /** A reply without transport error never ends in a transport failure,
      unless a direct parser itself returns one. */
  lemma NoErrorReachesParser(timedOut: bool, fits: bool, t: Trans, core: ProtocolCore, body: seq<char>)
    requires ParserFor(t).Some? && ParserFor(t).value.Direct? ==> !IsTransportFailure(core.result(ParserFor(t).value.direct, body))
    ensures var r := HttpFinishedResult(NoError, timedOut, fits, t, core, body);
            !IsTransportFailure(r) && (fits ==> r == ParseResult(t, core, body)) && (!fits ==> r == ReplyTooBig)
  {
  }

  /** A parse error is never replaced by the transport code. */
  lemma ParseErrorTakesPrecedence(error: int, timedOut: bool, t: Trans, core: ProtocolCore, body: seq<char>)
    requires TransportOutcome(error, timedOut).None?
    requires ParseResult(t, core, body) == FormatError
    ensures HttpFinishedResult(error, timedOut, true, t, core, body) == FormatError
  {
  }

  /** The size check comes before the parser: an oversized reply gives
      `ReplyTooBig` whatever the parsers would say. */
  lemma TooBigBeforeParse(error: int, timedOut: bool, t: Trans, a: ProtocolCore, b: ProtocolCore, body: seq<char>)
    requires TransportOutcome(error, timedOut).None?
    ensures HttpFinishedResult(error, timedOut, false, t, a, body) == ReplyTooBig
    ensures HttpFinishedResult(error, timedOut, false, t, a, body) == HttpFinishedResult(error, timedOut, false, t, b, body)
  {
  }
}
