/** Values shared by the transaction controller and its helpers. */
module Types {

  datatype Option<T> = None | Some(value: T)

  /** `pubnub_res`: the results the controller produces itself, plus any
      other result a protocol-core prep or parser function may hand back. */
  datatype Res =
    | Ok                      // PNR_OK
    | AddrResolutionFailed    // PNR_ADDR_RESOLUTION_FAILED
    | ConnectFailed           // PNR_CONNECT_FAILED
    | ConnectionTimeout       // PNR_CONNECTION_TIMEOUT
    | Timeout                 // PNR_TIMEOUT
    | HttpError               // PNR_HTTP_ERROR
    | FormatError             // PNR_FORMAT_ERROR
    | Cancelled               // PNR_CANCELLED
    | Started                 // PNR_STARTED
    | ReplyTooBig             // PNR_REPLY_TOO_BIG
    | OtherResult(code: nat)  // any other pubnub_res value

  /** `pubnub_trans`: the operation tag of a transaction. `NoTrans` stands
      for PBTT_NONE and every tag the controller has no parser for. */
  datatype Trans =
    | NoTrans
    | Subscribe
    | Publish
    | Leave
    | Time
    | History
    | HereNow
    | GlobalHereNow
    | WhereNow
    | SetState
    | StateGet
    | RemoveChannelGroup
    | RemoveChannelFromGroup
    | AddChannelToGroup
    | ListChannelGroup

  /** The `ssl_opts` bit set, one flag per bit. */
  datatype SslOpts = SslOpts(useSsl: bool, reduceSecurityOnError: bool, ignoreSecureConnectionRequirement: bool)

  /** No element occurs twice. */
  ghost predicate Distinct<T>(s: seq<T>) {
    forall i, j :: 0 <= i < j < |s| ==> s[i] != s[j]
  }

  /** Appending an element not yet present keeps a sequence free of repeats. */
  lemma DistinctAppend<T>(s: seq<T>, x: T)
    requires Distinct(s) && x !in s
    ensures Distinct(s + [x])
  {
  }
}
