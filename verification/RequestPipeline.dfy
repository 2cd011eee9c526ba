/**
 The request side of `handle_request`: every check in its order, one denial
 outcome, and the request that reaches the connection pool.
 */
module RequestPipeline {
  import opened Prelude
  import opened Decimal
  import opened RequestHeaders
  import opened DeclaredSize
  import opened BodyStreams

  datatype Policy = Policy(
    maxTargetBytes: nat, maxHeaderFields: nat, maxHeaderBytes: nat, maxRequestBytes: nat)

  /** `authorityMatches` and `extensionsFit` stand for checks of method, URL and extensions that are not modelled. */
  datatype Request = Request(
    authorityMatches: bool, extensionsFit: bool, target: Option<Bytes>, items: seq<Item>, body: seq<Chunk>)

  datatype Handled = Denied | Dispatched(target: Bytes, headers: seq<Field>, stream: Config)

  /** The requests that pass every check, in terms of the canonical headers. */
  ghost predicate Dispatchable(request: Request, authority: Bytes, policy: Policy) {
    && request.authorityMatches && request.extensionsFit
    && request.target.Some? && |request.target.value| <= policy.maxTargetBytes
    && Accepted(request.items)
    && (var headers := Pipeline(request.items, authority).value;
        && |headers| <= policy.maxHeaderFields && |Flat(headers)| <= policy.maxHeaderBytes
        && (var lengths := ValuesOf(headers, ContentLength);
            lengths == []
            || (|lengths| == 1 && IsDecimal(lengths[0]) && Value(lengths[0]) <= policy.maxRequestBytes)))
  }

  /** What the pool receives: the canonical headers, and a stream bound to the length they declare. */
  ghost predicate HandedOver(headers: seq<Field>, stream: Config, request: Request, authority: Bytes, policy: Policy) {
    && Dispatchable(request, authority, policy)
    && Some(headers) == Pipeline(request.items, authority)
    && stream.source == request.body && stream.budget == policy.maxRequestBytes
    && (var lengths := ValuesOf(headers, ContentLength);
        if lengths == [] then stream.declared == None
        else IsDecimal(lengths[0]) && stream.declared == Some(Value(lengths[0])))
  }

  /** Validates, then either closes the caller's stream and denies, or hands the request over. */
  method HandleRequest(request: Request, authority: Bytes, policy: Policy) returns (r: Handled, closed: bool)
    ensures r.Dispatched? <==> Dispatchable(request, authority, policy)
    ensures r.Dispatched? ==>
              HandedOver(r.headers, r.stream, request, authority, policy) && Some(r.target) == request.target
    ensures closed <==> r.Denied?
  {
    r, closed := Handled.Denied, true;
    if !request.authorityMatches || request.target.None? || |request.target.value| > policy.maxTargetBytes
       || !request.extensionsFit {
      return;
    }
    var built := BuildSafeRequestHeaders(request.items, authority);
    if built.None? {
      return;
    }
    var headers := ForceIdentityAcceptEncoding(built.value);
    var within := EnforceHeaderLimits(headers, policy.maxHeaderFields, policy.maxHeaderBytes);
    if !within {
      return;
    }
    var declared := EnforceDeclaredRequestSize(headers, policy.maxRequestBytes);
    if declared.Denied? {
      return;
    }
    var length := if declared.Length? then Some(declared.bytes) else None;
    r, closed :=
      Dispatched(request.target.value, headers, Config(request.body, policy.maxRequestBytes, length)), false;
  }

  /**
   End to end: if the headers given to the pool carry a `Content-Length`, a body
   consumed to normal completion has exactly that many bytes, whatever the
   interleaving of iterators; and no interleaving delivers more than the budget.
   */
  lemma DeliveredBodyMatchesHeaders(request: Request, authority: Bytes, policy: Policy,
                                    headers: seq<Field>, stream: Config, ops: seq<Op>)
    requires HandedOver(headers, stream, request, authority, policy)
    ensures var s, body, lengths := After(stream, ops), Joined(Received(stream, ops)), ValuesOf(headers, ContentLength);
            && |body| <= policy.maxRequestBytes
            && |lengths| + |ValuesOf(headers, TransferEncoding)| <= 1
            && (lengths != [] ==>
                  && IsDecimal(lengths[0])
                  && |body| <= Value(lengths[0]) <= policy.maxRequestBytes
                  && forall i :: 0 <= i < |s.iterators| && s.iterators[i].Completed? ==> |body| == Value(lengths[0]))
  {
    AtMostOneIteratorDelivers(stream, ops);
    PipelineKeepsFraming(request.items, authority);
    var s := After(stream, ops);
    forall i | 0 <= i < |s.iterators| && s.iterators[i].Completed?
      ensures stream.declared.Some? ==> |Joined(Received(stream, ops))| == stream.declared.value
    {
      CompletionIsExact(stream, ops, i);
    }
  }
}
