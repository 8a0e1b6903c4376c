/**
 * ApiKeyMiddleware (NoticeAPI/Middleware/ApiKeyMiddleware.cs): requests to
 * endpoints that accept POST, PUT or DELETE must carry the configured key in
 * the `X-Api-Key` header.
 */
module ApiKey {
  import opened Wrappers

  /** The routed endpoint; `httpMethods` is its HttpMethodMetadata, `None` when it has none. */
  datatype Endpoint = Endpoint(httpMethods: Option<seq<string>>)

  /** What the middleware looks at: the endpoint, if routing found one, and the header values by name. */
  datatype Request = Request(endpoint: Option<Endpoint>, headers: map<string, seq<string>>)

  /** `Reject`: status set, message written, `_next` not called. `Forward`: `_next` called once, response untouched. */
  datatype Decision = Reject(statusCode: int, message: string) | Forward

  const ApiKeyHeader: string := "X-Api-Key"
  const Unauthorized: int := 401
  const RejectMessage: string := "Invalid or missing API key"

  /** Ordinal comparison, as C#'s `==` on strings. */
  predicate IsWriteMethod(m: string)
  {
    m == "POST" || m == "PUT" || m == "DELETE"
  }

  /** `endpoint?.Metadata.GetMetadata<HttpMethodMetadata>()?.HttpMethods.Any(...) ?? false` */
  predicate IsProtected(endpoint: Option<Endpoint>)
    ensures IsProtected(endpoint) <==>
              && endpoint.Some? && endpoint.value.httpMethods.Some?
              && ("POST" in endpoint.value.httpMethods.value || "PUT" in endpoint.value.httpMethods.value
                  || "DELETE" in endpoint.value.httpMethods.value)
  {
    && endpoint.Some?
    && endpoint.value.httpMethods.Some?
    && exists m :: m in endpoint.value.httpMethods.value && IsWriteMethod(m)
  }

  /** `TryGetValue` succeeds and the header's values equal the configured key: exactly one value, that key. */
  predicate KeyMatches(headers: map<string, seq<string>>, apiKey: string)
    ensures KeyMatches(headers, apiKey) <==>
              ApiKeyHeader in headers && |headers[ApiKeyHeader]| == 1 && headers[ApiKeyHeader][0] == apiKey
  {
    ApiKeyHeader in headers && headers[ApiKeyHeader] == [apiKey]
  }

  /** `InvokeAsync`: only a protected request can be rejected, and then always with 401 and the same message. */
  function Invoke(request: Request, apiKey: string): (d: Decision)
    ensures d.Reject? ==> d == Reject(Unauthorized, RejectMessage) && IsProtected(request.endpoint)
    ensures d.Forward? ==> !IsProtected(request.endpoint) || KeyMatches(request.headers, apiKey)
  {
    if IsProtected(request.endpoint)
       && (ApiKeyHeader !in request.headers || request.headers[ApiKeyHeader] != [apiKey])
    then Reject(Unauthorized, RejectMessage)
    else Forward
  }

  /** No endpoint, no method metadata, or only read methods: the request passes whatever its headers. */
  lemma UnprotectedPasses(request: Request, apiKey: string)
    requires || request.endpoint.None?
             || request.endpoint.value.httpMethods.None?
             || forall m :: m in request.endpoint.value.httpMethods.value ==> !IsWriteMethod(m)
    ensures Invoke(request, apiKey) == Forward
  {
  }

  /** A protected request without the header is rejected with 401. */
  lemma MissingKeyRejected(request: Request, apiKey: string)
    requires IsProtected(request.endpoint) && ApiKeyHeader !in request.headers
    ensures Invoke(request, apiKey) == Reject(Unauthorized, RejectMessage)
  {
  }

  /** A protected request whose header is not exactly the configured key is rejected with 401. */
  lemma WrongKeyRejected(request: Request, apiKey: string)
    requires IsProtected(request.endpoint) && ApiKeyHeader in request.headers
    requires request.headers[ApiKeyHeader] != [apiKey]
    ensures Invoke(request, apiKey) == Reject(Unauthorized, RejectMessage)
  {
  }

  /** Carrying exactly the configured key lets any request through. */
  lemma MatchingKeyPasses(request: Request, apiKey: string)
    requires KeyMatches(request.headers, apiKey)
    ensures Invoke(request, apiKey) == Forward
  {
  }
}
