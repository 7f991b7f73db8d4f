/** The `$api` fetch instance (`plugins/api.ts`): default headers for the
    Laravel API, and a request hook that drops `Content-Type` for form
    uploads and adds the `X-XSRF-TOKEN` header, fetching the Sanctum cookie
    first when it is missing. Headers are a plain object, a map from name to
    value. */
module ApiPlugin {
  import opened Wrappers
  import opened XsrfCookie

  const ContentType: string := "Content-Type"

  /** The headers every `$api` request starts from. */
  const DefaultHeaders: map<string, string> :=
    map["Accept" := "application/json", "X-Requested-With" := "XMLHttpRequest", ContentType := "application/json"]

  /** `options.body`: a `FormData` upload or anything else. */
  datatype Body = FormData | OtherBody | NoBody

  /** The options object the hook rewrites in place. */
  class RequestOptions {
    var headers: map<string, string>
    var body: Body

    /** The instance defaults merged with the caller's own headers, which
        win. */
    constructor (callerHeaders: map<string, string>, body0: Body)
      ensures headers == DefaultHeaders + callerHeaders && body == body0
    {
      headers := DefaultHeaders + callerHeaders;
      body := body0;
    }
  }

  /** The `FormData` branch: copy the headers without `Content-Type`, so
      that the browser can add the multipart boundary. Other bodies keep
      their headers. */
  function StripContentType(h: map<string, string>, body: Body): (r: map<string, string>)
    ensures body.FormData? ==> ContentType !in r && r.Keys == h.Keys - {ContentType}
    ensures body.FormData? ==> forall k :: k in r ==> r[k] == h[k]
    ensures !body.FormData? ==> r == h
  {
    if body.FormData? then h - {ContentType} else h
  }

  /** `{ ...options.headers, 'X-XSRF-TOKEN': csrfToken }` when the token is
      non-empty; otherwise the headers as they are. */
  function WithCsrfHeader(h: map<string, string>, token: Option<string>): (r: map<string, string>)
    ensures Truthy(token) ==> r.Keys == h.Keys + {XsrfHeader} && r[XsrfHeader] == token.value
    ensures Truthy(token) ==> forall k :: k in h && k != XsrfHeader ==> r[k] == h[k]
    ensures !Truthy(token) ==> r == h
  {
    if Truthy(token) then h[XsrfHeader := token.value] else h
  }

  /** Rewriting twice changes nothing more: both steps are idempotent. */
  lemma {:induction false} RewriteIdempotent(h: map<string, string>, body: Body, token: Option<string>)
    ensures StripContentType(StripContentType(h, body), body) == StripContentType(h, body)
    ensures WithCsrfHeader(WithCsrfHeader(h, token), token) == WithCsrfHeader(h, token)
  {
    var s := StripContentType(h, body);
    if body.FormData? {
      assert StripContentType(s, body) == s;
    }
    var w := WithCsrfHeader(h, token);
    if Truthy(token) {
      assert WithCsrfHeader(w, token) == w;
    }
  }

  /** A JSON request keeps the default `Content-Type` unless the caller set
      one; a form upload never sends one, whatever the token. */
  lemma {:induction false} ContentTypeAfterHook(callerHeaders: map<string, string>, body: Body, token: Option<string>)
    ensures var h := WithCsrfHeader(StripContentType(DefaultHeaders + callerHeaders, body), token);
      && (!body.FormData? && ContentType !in callerHeaders ==> ContentType in h && h[ContentType] == "application/json")
      && (body.FormData? ==> ContentType !in h)
  {
    assert ContentType in DefaultHeaders;
    assert XsrfHeader != ContentType;
  }

  /** `getCsrfToken(baseURL)`: `null` on the server with no request; the
      handshake only when the cookie is missing or empty, at most once,
      with a failure logged and not thrown; then the cookie read again. */
  method GetCsrfToken(doc: Document, server: bool, decode: string -> string, outcome: HandshakeOutcome)
    returns (token: Option<string>)
    modifies doc
    ensures server ==> token.None? && doc.cookie == old(doc.cookie) && doc.handshakes == old(doc.handshakes)
    ensures !server && Truthy(ReadXsrfCookie(false, old(doc.cookie), decode)) ==>
      doc.cookie == old(doc.cookie) && doc.handshakes == old(doc.handshakes)
    ensures !server && !Truthy(ReadXsrfCookie(false, old(doc.cookie), decode)) ==>
      doc.handshakes == old(doc.handshakes) + 1
      && doc.cookie == (if outcome.Answered? then outcome.cookie else old(doc.cookie))
    ensures !server ==> token == ReadXsrfCookie(false, doc.cookie, decode)
  {
    if server {
      return None;
    }
    if !Truthy(ReadXsrfCookie(server, doc.cookie, decode)) {
      doc.Handshake(outcome);
    }
    token := ReadXsrfCookie(server, doc.cookie, decode);
  }

  /** `$csrf()`: the same token lookup. */
  method Csrf(doc: Document, server: bool, decode: string -> string, outcome: HandshakeOutcome)
    returns (token: Option<string>)
    modifies doc
    ensures server ==> token.None? && doc.cookie == old(doc.cookie) && doc.handshakes == old(doc.handshakes)
    ensures !server && Truthy(ReadXsrfCookie(false, old(doc.cookie), decode)) ==>
      doc.cookie == old(doc.cookie) && doc.handshakes == old(doc.handshakes)
    ensures !server && !Truthy(ReadXsrfCookie(false, old(doc.cookie), decode)) ==>
      doc.handshakes == old(doc.handshakes) + 1
      && doc.cookie == (if outcome.Answered? then outcome.cookie else old(doc.cookie))
    ensures !server ==> token == ReadXsrfCookie(false, doc.cookie, decode)
  {
    token := GetCsrfToken(doc, server, decode, outcome);
  }

  /** The `onRequest` hook: strip `Content-Type` for a form upload, then add
      the token header when the token is non-empty. The body is left
      alone. */
  method OnRequest(options: RequestOptions, doc: Document, server: bool, decode: string -> string, outcome: HandshakeOutcome)
    returns (token: Option<string>)
    modifies options, doc
    ensures server ==> token.None? && doc.cookie == old(doc.cookie) && doc.handshakes == old(doc.handshakes)
    ensures !server && Truthy(ReadXsrfCookie(false, old(doc.cookie), decode)) ==>
      doc.cookie == old(doc.cookie) && doc.handshakes == old(doc.handshakes)
    ensures !server && !Truthy(ReadXsrfCookie(false, old(doc.cookie), decode)) ==>
      doc.handshakes == old(doc.handshakes) + 1
      && doc.cookie == (if outcome.Answered? then outcome.cookie else old(doc.cookie))
    ensures !server ==> token == ReadXsrfCookie(false, doc.cookie, decode)
    ensures options.body == old(options.body)
    ensures options.headers == WithCsrfHeader(StripContentType(old(options.headers), old(options.body)), token)
  {
    if options.body.FormData? {
      var headers := options.headers;
      headers := headers - {ContentType};
      options.headers := headers;
    }
    token := GetCsrfToken(doc, server, decode, outcome);
    if Truthy(token) {
      options.headers := options.headers[XsrfHeader := token.value];
    }
  }
}
