# pubnub_qt transaction controller

This is a model of the transaction controller in the Qt binding of the PubNub C client, class `pubnub_qt`. The controller runs one HTTP exchange at a time:

- `startRequest` turns a prepared request into a new `QNetworkReply` and arms the transaction timer.
- `cancel` and `transactionTimeout` both abort the reply. They differ only in the timed-out flag.
- `httpFinished` stops the timer, clears the reply buffer on a transport error and classifies the error. Otherwise it hands the body to `finish`.
- `finish` copies the body into the protocol core's reply buffer and runs the parser of the current operation tag. It then applies the HTTP-status override.

Every finished reply emits exactly one `outcome` signal: Qt connects and emits `finished` once per reply (qt/pubnub_qt.cpp:53), so the model delivers `finished` only to a running reply.

The main files:

- `controller.dfy` (module `PubnubQt`) holds the imperative model. Class `Pubnub` has the controller's fields: tag, active reply, timed-out flag, timer, status code, origin, SSL options, and the protocol-core context (reply buffer as an `array<char>`, its length, the message and channel cursors). Each event is a method with a `modifies` frame. A ghost log `outcomes` records every emitted signal. A ghost `released` records every reply handed to `deleteLater`. A ghost `answered` records the reply each outcome answers. `Valid()` holds after every event. It says:
  - the buffer holds a NUL after its bytes;
  - a superseded reply is released exactly once;
  - there are as many answered replies as outcomes, no reply is answered twice, and a running reply has not been answered yet;
  - the timer runs exactly while the active reply is unfinished, and such a reply has not timed out.
- `outcome.dfy` (module `Outcome`) holds the pure decision tables and their lemmas: transport classification, parser dispatch, status override, and the whole outcome of `httpFinished`.
- `origin.dfy` (module `Origin`) holds the scheme rewriting of `set_ssl_options` and `set_origin`.
- `publish_result.dfy` (module `PublishResult`) holds `last_publish_result`: C strings, `strtol`, and the text after the number.
- `scenarios.dfy` (module `Scenarios`) drives whole transactions through the class.

External parts are modelled as follows:

- Qt's network access manager is replaced by `Reply` objects.
- An abort of a running reply is a synchronous call of `HttpFinished` with `OperationCanceledError`, as Qt delivers it.
- The timer is a running flag and an interval.
- The protocol core's parsers are a constant record of uninterpreted total functions (`ProtocolCore`) given to the constructor.
- A parser's effect on the message and channel lists is `core.lists`.
- The body, the Qt error and the HTTP status attribute of a finished reply are parameters of `HttpFinished`.

## Model

| member | source | states |
|---|---|---|
| PubnubQt.Pubnub.constructor | qt/pubnub_qt.cpp:12-32 | origin `https://pubsub.pubnub.com` with SSL, `http://…` under QT_NO_SSL; options `useSSL` or none; timeout 10000 ms, not timed out; status code 0; no reply, no tag, no outcome yet; fixed buffer allocated and empty |
| PubnubQt.Pubnub.StartRequest | qt/pubnub_qt.cpp:41-57 | returns the preparation result; with anything but Started no field changes; with Started: the tag is set, the old reply is released, a fresh reply for origin + path is active, the flag is cleared, and the timer runs with the configured interval |
| PubnubQt.Pubnub.ReplaceReply | qt/pubnub_qt.cpp:47-54 | the previous reply is appended to the released ones (none if there was none); a fresh unfinished reply for the URL is active; flag cleared; timer running with the configured interval |
| PubnubQt.Pubnub.AbortReply | qt/pubnub_qt.cpp:114 | aborting a running reply finishes it with exactly one outcome, Timeout if the flag is set and Cancelled otherwise, answering that reply; the buffer is cleared; tag, options, lists, released replies, the timer interval and the reply's TLS flag are kept, and a fixed buffer keeps every byte after the first; aborting a finished reply changes nothing, buffer contents included |
| PubnubQt.Pubnub.Cancel | qt/pubnub_qt.cpp:111-116 | without a running reply nothing changes, neither the controller, the reply nor the buffer contents; with one, exactly the outcome Cancelled is emitted for it, the reply is finished and the buffer is cleared, a fixed buffer keeping every byte after the first; the timed-out flag, the timer interval and the reply's TLS flag are never touched |
| PubnubQt.Pubnub.TransactionTimeout | qt/pubnub_qt.cpp:451-457 | with a reply the flag is set; a running reply is aborted with exactly the outcome Timeout for it and the buffer is cleared, a fixed buffer keeping every byte after the first; the timer interval and the reply's TLS flag are kept; a finished reply emits nothing and keeps the reply and buffer contents; without a reply nothing changes |
| PubnubQt.Pubnub.HttpFinished | qt/pubnub_qt.cpp:460-497 | delivered to the running reply only; the timer is stopped, the reply finished and logged as answered; exactly one outcome is appended, `HttpFinishedResult` of the error, flag, size, tag and body; the buffer, status code and lists are as `Responded` states for each path: a fixed buffer stays the same array and keeps every byte past the reply's NUL (past byte 0 after an error), a dynamic buffer that takes a reply is freshly allocated; tag, flag, origin, options and the timer interval are kept |
| PubnubQt.Pubnub.Respond | qt/pubnub_qt.cpp:464-496 | on any error the buffer is emptied, or released in dynamic mode, before classification; a classified error is emitted without parsing; every other case, no error included, emits finish's result with the error code passed as status; a fixed buffer stays the same array and keeps every byte the reply and its NUL do not overwrite |
| PubnubQt.Pubnub.ClearReplyBuffer | qt/pubnub_qt.cpp:467-473 | length 0; a fixed buffer keeps its array with a NUL at 0 and every later byte as it was; a dynamic buffer is released |
| PubnubQt.Pubnub.Finish | qt/pubnub_qt.cpp:381-448 | a body of at least the fixed capacity gives ReplyTooBig and changes nothing; otherwise (the size test is `Fits`) the buffer holds exactly the body followed by a NUL, a fixed buffer being the same array with every later byte as it was and a dynamic one freshly allocated, the lists are the parser's (`Outcome.ParsedListsFor` of the tag and body, or unchanged when it gives none), the status code is the attribute or 0, and the result is the override of the dispatched parse |
| PubnubQt.Pubnub.SslErrors | qt/pubnub_qt.cpp:511-513 | the reply's TLS errors are ignored exactly when the options carry ignoreSecureConnectionRequirement |
| PubnubQt.Pubnub.SetSslOptions | qt/pubnub_qt.cpp:355-368 | the origin becomes `Origin.ApplySslScheme` of the old origin and the options are stored |
| PubnubQt.Pubnub.SetOrigin | qt/pubnub_qt.cpp:371-378 | the origin becomes `Origin.OriginFor` of the request under the current SSL choice; the options are kept |
| PubnubQt.Pubnub.NextMessage | qt/pubnub_qt.cpp:82 | the message at the cursor, advancing it, or none once all are read |
| PubnubQt.Pubnub.NextChannel | qt/pubnub_qt.cpp:101 | the channel at the cursor, advancing it, or none once all are read |
| PubnubQt.Pubnub.Get | qt/pubnub_qt.cpp:73-76 | the next unread message, or the empty string when none is left |
| PubnubQt.Pubnub.GetAll | qt/pubnub_qt.cpp:79-89 | exactly the unread messages in arrival order; afterwards none is unread |
| PubnubQt.Pubnub.GetAllChannels | qt/pubnub_qt.cpp:98-108 | exactly the unread channels in order; afterwards none is unread |
| PubnubQt.Pubnub.LastPublishResult | qt/pubnub_qt.cpp:327-339 | empty unless the tag is Publish and a reply buffer exists; otherwise `PublishResult.LastPublishResult` of the buffer |
| Outcome.TransportOutcome | qt/pubnub_qt.cpp:474-493 | an error is answered at once exactly when it is one of the five classified errors; the answer is a transport failure: abort gives Timeout/Cancelled by the flag, TimeoutError ConnectionTimeout, HostNotFound AddrResolutionFailed, ConnectionRefused/ProtocolUnknown ConnectFailed |
| Outcome.TimedOutFlagDecidesOnlyAbort | qt/pubnub_qt.cpp:475-481 | the flag changes the classification of OperationCanceledError (Timeout vs Cancelled) and of no other error |
| Outcome.HttpFinishedResult | qt/pubnub_qt.cpp:474-496 | a classified transport error is the outcome; otherwise a body that does not fit gives ReplyTooBig; otherwise the outcome is the parse result or, only for an Ok parse, HttpError, and exactly the parse result without a transport error |
| Outcome.AbortOutcomeByFlag | qt/pubnub_qt.cpp:474-482 | an aborted reply ends in Timeout or Cancelled by the flag alone, whatever the body, tag, size or parsers |
| Outcome.ParserForTable | qt/pubnub_qt.cpp:401-437 | documents the dispatch table `Outcome.ParserFor`: only a tag outside the switch has no parser; subscribe, time, history and publish each have their own; the six presence tags share one parser and the four channel-group tags another |
| Outcome.CheckedResult | qt/pubnub_qt.cpp:403-405 | a checked parser's status gives Ok exactly when it is 0, and FormatError otherwise |
| Outcome.ParseResult | qt/pubnub_qt.cpp:401-438 | the switch runs the parser the dispatch table names: a checked parser's status becomes Ok or FormatError, a direct parser's result is passed through, a tag without a parser gives Ok |
| Outcome.ParseResultFollowsTable | qt/pubnub_qt.cpp:401-438 | subscribe, time, history and the six presence tags give Ok exactly when their parser reports 0 and FormatError otherwise; publish and the four channel-group tags pass their parser's result through; any other tag gives Ok |
| Outcome.ParseResultUsesOnlyDispatchedParser | qt/pubnub_qt.cpp:401-438 | the parse result depends on the one parser the table dispatches to and on no other |
| Outcome.StatusOverride | qt/pubnub_qt.cpp:443-447 | a non-Ok parse result is kept; an Ok one becomes HttpError exactly when the code is nonzero and outside 200..299; nothing else is produced |
| Outcome.CDiv | qt/pubnub_qt.cpp:443 | C's `/` on `int`: the quotient truncated toward zero, so the remainder has the sign of the dividend and is smaller than the divisor |
| Outcome.OverrideOnlyReplacesOk | qt/pubnub_qt.cpp:443-447 | the override changes a result only from Ok to HttpError |
| Outcome.QtContentErrorsPassOverride | qt/pubnub_qt.cpp:496 | with the Qt error passed as status, any code in 200..299 (Qt's content errors, HTTP 404 being 203) leaves an Ok parse Ok |
| Outcome.NoErrorReachesParser | qt/pubnub_qt.cpp:465-496 | without a transport error the outcome is the parse result, or ReplyTooBig when the body does not fit, and never a transport failure unless a pass-through parser returns one |
| Outcome.ParseErrorTakesPrecedence | qt/pubnub_qt.cpp:443-447 | a FormatError parse is emitted whatever the status code |
| Outcome.TooBigBeforeParse | qt/pubnub_qt.cpp:390-393 | a body that does not fit gives ReplyTooBig before any parser runs, whatever the parsers return |
| Origin.ApplySslScheme | qt/pubnub_qt.cpp:355-366 | with SSL the result never starts with `http:`, without it never with `https:`; whether the origin names an http(s) scheme and everything after the scheme are kept |
| Origin.ApplySslSchemeIdempotent | qt/pubnub_qt.cpp:355-368 | applying the same options twice equals applying them once |
| Origin.LastSslChoiceWins | qt/pubnub_qt.cpp:355-368 | for any origin only the last SSL choice matters |
| Origin.OriginFor | qt/pubnub_qt.cpp:371-378 | the result always names http or https; an origin that already does is kept verbatim; any other gets `//` in front and `https:` exactly when SSL is on |
| Origin.ExampleOriginSwitch | qt/pubnub_qt.cpp:357-365 | `http://example.com` with SSL becomes `https://example.com`, and back without it |
| Origin.ExampleBareHost | qt/pubnub_qt.cpp:373-376 | `example.com` under SSL becomes `https://example.com` |
| PublishResult.CString | qt/pubnub_qt.cpp:330-337 | the C string a buffer holds: a prefix of it without NUL that ends at the first NUL or at the buffer's end |
| PublishResult.SkipSpace | qt/pubnub_qt.cpp:337 | the maximal run of C-locale white space from a position |
| PublishResult.SkipDigits | qt/pubnub_qt.cpp:337 | the maximal run of decimal digits from a position |
| PublishResult.StrtolEnd | qt/pubnub_qt.cpp:337 | where strtol leaves `end`: at the start exactly when no digit follows the white space and optional sign; otherwise just past the maximal digit run that starts there |
| PublishResult.LastPublishResult | qt/pubnub_qt.cpp:327-339 | empty for a tag other than Publish, a released buffer or an empty reply; otherwise a proper suffix of the reply's C string missing at least its first character and one more |
| PublishResult.PublishTail | qt/pubnub_qt.cpp:336-338 | the text after the first character, the number and one separator; a suffix of the input shorter by at least two |
| PublishResult.LastPublishResultReadsCString | qt/pubnub_qt.cpp:332-338 | only the bytes before the first NUL matter |
| PublishResult.SkipsNumberAndSeparator | qt/pubnub_qt.cpp:336-338 | a reply made of one character, digits, a non-digit separator and a rest yields exactly the rest |
| PublishResult.PublishReplyExample | qt/pubnub_qt.cpp:336-338 | `[1,"Sent","14178940?"]` yields `"Sent","14178940?"]` |
| PublishResult.AsWrittenPublishResult | qt/pubnub_qt.cpp:336-338 | the source as written: no result (a read outside the buffer) exactly when `end + 1` lies outside the buffer or no NUL follows it inside the buffer; otherwise the C string there; agrees with the corrected function whenever the number does not run to the end of the reply and the buffer holds its NUL |
| PublishResult.AsWrittenReadsPastTerminator | qt/pubnub_qt.cpp:336-338 | on the buffer `[1\0stale\0` the source as written returns `stale`, the corrected function the empty string |
| PublishResult.AsWrittenReadsPastUnterminatedTail | qt/pubnub_qt.cpp:336-338 | on the buffer `[1\0abc`, with no NUL after `abc`, the source as written reads past the buffer, the corrected function returns the empty string |
| PublishResult.AsWrittenReadsPastDynamicBuffer | qt/pubnub_qt.cpp:336-338 | on the dynamic buffer `[1\0` the source as written reads outside the buffer, the corrected function returns the empty string |
| PublishResult.AsWrittenReadsStaleTail | qt/pubnub_qt.cpp:336-338 | for a reply whose number runs to its end, followed by its NUL and the C string of an earlier reply, the source as written returns that earlier text and the corrected function the empty string |
| PublishResult.AsWrittenAfterShorterReply | qt/pubnub_qt.cpp:336-338 | any buffer starting `[1\0stale\0`: the source as written returns `stale`, the corrected function the empty string |
| Scenarios.StartedRequest | qt/pubnub_qt.cpp:41-57 | after construction and a successful start: one unfinished fresh reply, tag set, flag clear, no outcome yet |
| Scenarios.TimedOutRequest | qt/pubnub_qt.cpp:451-457 | a started request whose timer fires emits exactly Timeout |
| Scenarios.TimeoutThenCancel | qt/pubnub_qt.cpp:475-481 | a timed-out request followed by a new request that is cancelled emits Timeout then Cancelled; the first reply is released once |
| Scenarios.FailedPreparation | qt/pubnub_qt.cpp:41-57 | a failed preparation is returned and starts no reply, no timer and no outcome |
| Scenarios.PublishExchange | qt/pubnub_qt.cpp:496 | a publish reply finished with no error or with HTTP 404 emits Ok when the parser accepts it; the status code is recorded and the buffer holds the body with a NUL after it |
| Scenarios.NotFoundPublish | qt/pubnub_qt.cpp:440-447 | HTTP 404 with an accepted publish body gives Ok, and `last_http_code` is 404 |
| Scenarios.SubscribeAndDrain | qt/pubnub_qt.cpp:401-406 | a subscribe reply gives Ok when the parser accepts it and FormatError otherwise; draining then yields the parsed messages in order |
| Scenarios.ExactCapacityReplyTooBig | qt/pubnub_qt.cpp:391-393 | a 4-byte body in a 4-byte fixed buffer gives ReplyTooBig, with the buffer and status code untouched |
| Scenarios.StaleBytesAfterShortReply | qt/pubnub_qt.cpp:389-396 | two publishes into a 16-byte fixed buffer answered `[1,stale` and then `[1` leave the buffer starting `[1\0stale\0`; last_publish_result as written returns `stale` there and the corrected one the empty string |
| Scenarios.PublishReply | qt/pubnub_qt.cpp:327-339 | the publish reply `[1,"Sent","14178940?"]` with status 200 gives Ok, and last_publish_result returns `"Sent","14178940?"]` |
| Scenarios.OriginSwitch | qt/pubnub_qt.cpp:355-378 | `example.com` under the default SSL choice becomes `https://example.com` (returned as `withSsl`), and `http://example.com` once SSL is switched off |

Behaviour worth noting:

- `finish` receives `d_reply->error()` as its status code, not the HTTP status (qt/pubnub_qt.cpp:496). HTTP 404 arrives as Qt's ContentNotFoundError (203), which passes the 2xx test. So a well-formed payload with HTTP 404 gives Ok, not HttpError, while `last_http_code` still reports 404.
- A fixed buffer refuses a body whose size is at least the buffer's size, because one byte is kept for the NUL (qt/pubnub_qt.cpp:391). A body exactly as long as the buffer gives ReplyTooBig.
- On the publish reply `[1,"Sent","14178940?"]`, `last_publish_result` returns `"Sent","14178940?"]`, not the time token alone.
- The result of the channel-registry parser is passed through unchanged, like the publish parser's.
- `startRequest` does not disconnect the superseded reply's `finished` signal and emits no outcome of its own for a superseded unfinished reply.

## Left out

- Qt networking: `QNetworkAccessManager::get`, the `connect` wiring, `readAll`, `attribute` and `deleteLater` are foreign code. They become `Reply` objects, method parameters and the ghost `released` log.
- QTimer's timing: the model has no clock. The timer is a running flag and an interval, and its firing is a call of `TransactionTimeout`.
- Protocol-core logic: every `pbcc_*` prep and parse function, `pbcc_realloc_reply_buffer` and `pubnub_parse_publish_result` live in C files outside this model. Parsers are uninterpreted functions of the reply bytes.
- Preparation results: the operation wrappers (`publish`, `subscribe`, `time`, `history`, presence and channel-group operations) only pass a prep result and a fixed tag to `startRequest`. The prep result and the path it leaves in `http_buf` are parameters.
- `http_buf_len` during preparation: prep functions also set it, to the path length. The model keeps it for the reply length only.
- Dynamic reallocation failure: `pbcc_realloc_reply_buffer` failing is not modelled, since that C code is outside this model. A dynamic buffer is always a freshly allocated array one byte longer than the body.
- The message and channel cursors are kept as sequences beside the buffer, not decoded from it.
- `d_trans` is not initialised by the constructor in the source. The model starts it at NoTrans, which has no parser.
- A late `finished` from a superseded reply cannot be delivered in the model, because `HttpFinished` acts on the active reply. The source does not guard against that race, and the model claims nothing about it.
- `qDebug` output and the TLS error string built in `sslErrors` are only logged.
- `set_uuid`, `set_auth`, `last_time_token`, `get_channel`, `pubnub_sdk_name` and `pubnub_uname` are storage, accessors or constants with no logic. The Latin-1 and QString conversions are not modelled either.
- Threading: the controller is single-threaded and callback-driven, so serialised method calls suffice.
- PubnubQt.Pubnub.LastHttpCode: it only returns the recorded code and has no contract of its own. The scenarios state its value.

## Findings

| source | as written | input that shows it | evidently intended | confidence | as-written member | corrected member |
|---|---|---|---|---|---|---|
| qt/pubnub_qt.cpp:336-338 | returns the C string at one past where `strtol` stopped, without checking that this is still inside the reply | a publish reply `[1` in a fixed buffer after the longer reply `[1,stale`: the buffer holds `[1\0stale\0`, `end` points at the NUL, and `end + 1` reads the stale `stale`; with no NUL after `end + 1`, as in `[1\0abc`, the read runs past the buffer; in dynamic mode the buffer is exactly `[1\0` and `end + 1` lies past its end | return the empty string when the number runs to the end of the reply | not executed | PublishResult.AsWrittenPublishResult (lemmas PublishResult.AsWrittenReadsPastTerminator, PublishResult.AsWrittenReadsStaleTail, PublishResult.AsWrittenReadsPastUnterminatedTail and PublishResult.AsWrittenReadsPastDynamicBuffer; the controller reaches that buffer in Scenarios.StaleBytesAfterShortReply) | PublishResult.LastPublishResult |
