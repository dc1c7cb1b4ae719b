/**
 * The part of ApiHttpClient the Http class uses: its default request headers
 * (shared by every later request) and the requests it sends. What a request
 * returns is not computed here; each operation of Http receives the reply
 * (or the error ApiHttpClient would raise) as a parameter.
 */
module ApiClient {

  /** The typed errors ApiHttpClient raises, plus a failed transport. */
  datatype ApiError =
    | ClientUpdateRequired
    | Ratelimited
    | InvalidResponse
    | RequestFailed

  datatype Request =
    | Get(url: string)
    | Post(url: string, username: string, password: string)

  /** A request as it went out, with the default headers it carried. */
  datatype Sent = Sent(request: Request, headers: Headers)

  /** DefaultRequestHeaders: each header name holds a list of values. */
  type Headers = map<string, seq<string>>

  function Values(h: Headers, name: string): seq<string>
  {
    if name in h then h[name] else []
  }

  class ApiHttpClient {
    var defaultRequestHeaders: Headers
    /** Every request sent so far, oldest first. */
    var requests: seq<Sent>

    constructor ()
      ensures defaultRequestHeaders == map[] && requests == []
    {
      defaultRequestHeaders := map[];
      requests := [];
    }

    /** HttpHeaders.TryAddWithoutValidation: appends a value, keeping the ones already there. */
    method TryAddWithoutValidation(name: string, value: string)
      modifies this
      ensures defaultRequestHeaders == old(defaultRequestHeaders)[name := Values(old(defaultRequestHeaders), name) + [value]]
      ensures requests == old(requests)
    {
      defaultRequestHeaders := defaultRequestHeaders[name := Values(defaultRequestHeaders, name) + [value]];
    }

    /** HttpHeaders.Remove: drops every value of the header. */
    method Remove(name: string) returns (removed: bool)
      modifies this
      ensures removed == (name in old(defaultRequestHeaders))
      ensures defaultRequestHeaders == old(defaultRequestHeaders) - {name}
      ensures requests == old(requests)
    {
      removed := name in defaultRequestHeaders;
      defaultRequestHeaders := defaultRequestHeaders - {name};
    }

    /** Sends a request; the record keeps the default headers it carried. */
    method Send(request: Request)
      modifies this
      ensures requests == old(requests) + [Sent(request, old(defaultRequestHeaders))]
      ensures defaultRequestHeaders == old(defaultRequestHeaders)
    {
      requests := requests + [Sent(request, defaultRequestHeaders)];
    }
  }
}
