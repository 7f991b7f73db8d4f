/** Downloading a credit-application document with the session's
    credentials (`composables/useDocumentDownload.ts`): make sure the
    `XSRF-TOKEN` cookie exists, build the URL and the headers, turn a failed
    response into an error, and pick the file name. The network response is
    a parameter; the `Blob` and the temporary link are not modelled. */
module DocumentDownload {
  import opened Wrappers
  import opened Text
  import opened XsrfCookie

  /** The API origin when the runtime configuration leaves it empty. */
  const DefaultApiBase: string := "http://localhost:8000"

  /** The name used when neither the caller nor the response gives one. */
  const FallbackFilename: string := "documento"

  /** `config.public.apiBase || 'http://localhost:8000'`. */
  function ApiBase(configured: Option<string>): (base: string)
    ensures base != ""
    ensures Truthy(configured) ==> base == configured.value
    ensures !Truthy(configured) ==> base == DefaultApiBase
  {
    if Truthy(configured) then configured.value else DefaultApiBase
  }

  // ---------------------------------------------------------------------------
  // ensureCsrfCookie
  // ---------------------------------------------------------------------------

  /** `ensureCsrfCookie()`: `null` on the server; the cookie's value when it
      is already there; otherwise one handshake, whose failure is ignored,
      and the value read again, which may still be `null`. */
  method EnsureCsrfCookie(doc: Document, server: bool, decode: string -> string, outcome: HandshakeOutcome)
    returns (token: Option<string>)
    modifies doc
    ensures server ==> token.None? && doc.cookie == old(doc.cookie) && doc.handshakes == old(doc.handshakes)
    ensures !server && Truthy(ReadXsrfCookie(false, old(doc.cookie), decode)) ==>
      token == ReadXsrfCookie(false, old(doc.cookie), decode)
      && doc.cookie == old(doc.cookie) && doc.handshakes == old(doc.handshakes)
    ensures !server && !Truthy(ReadXsrfCookie(false, old(doc.cookie), decode)) ==>
      doc.handshakes == old(doc.handshakes) + 1
      && doc.cookie == (if outcome.Answered? then outcome.cookie else old(doc.cookie))
      && token == ReadXsrfCookie(false, doc.cookie, decode)
  {
    if server {
      return None;
    }
    if Truthy(ReadXsrfCookie(server, doc.cookie, decode)) {
      return ReadXsrfCookie(server, doc.cookie, decode);
    }
    doc.Handshake(outcome);
    token := ReadXsrfCookie(server, doc.cookie, decode);
  }

  // ---------------------------------------------------------------------------
  // The request
  // ---------------------------------------------------------------------------

  /** `applicationId: string | number`. */
  datatype ApplicationId = TextId(text: string) | NumberId(number: int)

  /** The id as a template literal writes it. */
  function IdText(id: ApplicationId): string {
    match id
    case TextId(t) => t
    case NumberId(n) => IntToString(n)
  }

  /** The fixed parts of the download path. */
  const ApplicationsPath: string := "/api/credit-applications/"
  const DocumentsPath: string := "/documents/"
  const DownloadPath: string := "/download"

  /** The download URL. */
  function DownloadUrl(apiBase: string, app: ApplicationId, documentId: int): (url: string)
    ensures apiBase <= url
  {
    apiBase + ApplicationsPath + IdText(app) + DocumentsPath + IntToString(documentId) + DownloadPath
  }

  /** Where a piece sits in a concatenation of five. */
  lemma {:induction false} PiecesAt(s0: string, s1: string, s2: string, s3: string, s4: string, s5: string)
    ensures var u := s0 + s1 + s2 + s3 + s4 + s5;
      && u[..|s0|] == s0
      && u[|s0| + |s1|..|s0| + |s1| + |s2|] == s2
      && u[|u| - |s5| - |s4|..|u| - |s5|] == s4
  {
    var u := s0 + s1 + s2 + s3 + s4 + s5;
    assert u == (s0 + s1) + s2 + (s3 + s4 + s5);
    assert u == (s0 + s1 + s2 + s3) + s4 + s5;
  }

  /** Each id sits in its own place in the URL: the application id right
      after the base and `/api/credit-applications/`, the document id right
      before `/download`. */
  lemma {:induction false} UrlIds(apiBase: string, app: ApplicationId, documentId: int)
    ensures var url := DownloadUrl(apiBase, app, documentId);
      var a := |apiBase| + |ApplicationsPath|;
      var d := |url| - |DownloadPath|;
      && url[a..a + |IdText(app)|] == IdText(app)
      && url[d - |IntToString(documentId)|..d] == IntToString(documentId)
  {
    PiecesAt(apiBase, ApplicationsPath, IdText(app), DocumentsPath, IntToString(documentId), DownloadPath);
  }

  /** The request headers: `Accept` set to any type, `X-Requested-With`, and
      `X-XSRF-TOKEN` exactly when the token is non-empty. */
  function DownloadHeaders(xsrf: Option<string>): (h: map<string, string>)
    ensures h.Keys == {"Accept", "X-Requested-With"} + (if Truthy(xsrf) then {XsrfHeader} else {})
    ensures h["Accept"] == "*/*" && h["X-Requested-With"] == "XMLHttpRequest"
    ensures Truthy(xsrf) ==> h[XsrfHeader] == xsrf.value
  {
    var base := map["Accept" := "*/*", "X-Requested-With" := "XMLHttpRequest"];
    if Truthy(xsrf) then base[XsrfHeader := xsrf.value] else base
  }

  /** The error a response that is not ok raises. */
  function ErrorMessage(status: int): (msg: string)
    ensures OccursAt(msg, IntToString(status), |"Error "|)
  {
    "Error " + IntToString(status) + ": No se pudo descargar"
  }

  /** The status is the text between `Error ` and the first `:`. */
  lemma {:induction false} ErrorMessageStatus(status: int)
    ensures Split(ErrorMessage(status)[|"Error "|..], ':')[0] == IntToString(status)
  {
    var s := IntToString(status);
    assert ErrorMessage(status)[|"Error "|..] == s + [':'] + " No se pudo descargar";
    SplitAtFirst(s, " No se pudo descargar", ':');
  }

  // ---------------------------------------------------------------------------
  // The file name from Content-Disposition:
  // /filename[^;=\n]*=((['"]).*?\2|[^;\n]*)/
  // ---------------------------------------------------------------------------

  const FilenameWord: string := "filename"

  /** Characters that stop `[^;=\n]*`. */
  predicate EndsParamName(ch: char) { ch == ';' || ch == '=' || ch == '\n' }

  /** Characters `.` does not match. */
  predicate IsLineTerminator(ch: char) {
    ch == '\n' || ch == '\r' || ch == '\U{2028}' || ch == '\U{2029}'
  }

  /** The end of `[^;=\n]*` from `i`. */
  function ParamNameEnd(c: string, i: nat): (j: nat)
    requires i <= |c|
    ensures i <= j <= |c| && (j == |c| || EndsParamName(c[j]))
    ensures forall k :: i <= k < j ==> !EndsParamName(c[k])
    decreases |c| - i
  {
    if i == |c| || EndsParamName(c[i]) then i else ParamNameEnd(c, i + 1)
  }

  /** The lazy `.*?\2`: the first `q` at or after `i` with no line
      terminator before it. */
  function QuoteClose(c: string, i: nat, q: char): (k: Option<nat>)
    requires i <= |c| && !IsLineTerminator(q)
    ensures k.Some? ==> i <= k.value < |c| && c[k.value] == q
    ensures k.Some? ==> forall j :: i <= j < k.value ==> c[j] != q && !IsLineTerminator(c[j])
    decreases |c| - i
  {
    if i == |c| then None
    else if c[i] == q then Some(i)
    else if IsLineTerminator(c[i]) then None
    else QuoteClose(c, i + 1, q)
  }

  /** The end of `[^;\n]*` from `i`. */
  function PlainEnd(c: string, i: nat): (j: nat)
    requires i <= |c|
    ensures i <= j <= |c| && (j == |c| || c[j] == ';' || c[j] == '\n')
    ensures forall k :: i <= k < j ==> c[k] != ';' && c[k] != '\n'
    decreases |c| - i
  {
    if i == |c| || c[i] == ';' || c[i] == '\n' then i else PlainEnd(c, i + 1)
  }

  /** The group the expression captures when it matches at `p`: a quoted
      value with its quotes, or else everything up to `;` or a newline. */
  function CaptureAt(c: string, p: nat): (g: Option<string>)
    requires p <= |c|
    ensures g.Some? ==> OccursAt(c, FilenameWord, p)
  {
    if !OccursAt(c, FilenameWord, p) then None
    else
      var j := ParamNameEnd(c, p + |FilenameWord|);
      if j == |c| || c[j] != '=' then None
      else
        var v := j + 1;
        if v < |c| && (c[v] == '"' || c[v] == '\'') && QuoteClose(c, v + 1, c[v]).Some? then
          Some(c[v..QuoteClose(c, v + 1, c[v]).value + 1])
        else Some(c[v..PlainEnd(c, v)])
  }

  /** The leftmost position at or after `p` where the expression matches. */
  function FirstCapture(c: string, p: nat): (q: Option<nat>)
    requires p <= |c|
    ensures q.Some? ==> p <= q.value <= |c| && CaptureAt(c, q.value).Some?
    ensures q.Some? ==> forall r :: p <= r < q.value ==> CaptureAt(c, r).None?
    ensures q.None? ==> forall r :: p <= r <= |c| ==> CaptureAt(c, r).None?
    decreases |c| - p
  {
    if CaptureAt(c, p).Some? then Some(p)
    else if p == |c| then None
    else FirstCapture(c, p + 1)
  }

  /** `disposition.match(...)?.[1]`. */
  function DispositionFilename(disposition: string): (g: Option<string>)
    ensures g.Some? <==> FirstCapture(disposition, 0).Some?
  {
    match FirstCapture(disposition, 0)
    case None => None
    case Some(p) => CaptureAt(disposition, p)
  }

  /** `.replace(/['"]/g, '').trim()`. */
  function CleanFilename(g: string): (r: string)
    ensures '"' !in r && '\'' !in r
    ensures r == Trim(r)
  {
    var kept := Keep(g, NotQuote);
    assert '"' !in kept && '\'' !in kept;
    TrimIdempotent(kept);
    Trim(kept)
  }

  /** The lazy quote match ends at the first closing quote. */
  lemma {:induction false} QuoteCloseAfter(c: string, i: nat, q: char, n: nat)
    requires !IsLineTerminator(q) && i + n < |c| && c[i + n] == q
    requires forall j :: i <= j < i + n ==> c[j] != q && !IsLineTerminator(c[j])
    ensures QuoteClose(c, i, q) == Some(i + n)
    decreases n
  {
    if n > 0 {
      QuoteCloseAfter(c, i + 1, q, n - 1);
    }
  }

  /** Before `filename` there is no match when the text before it has no
      `f`. */
  lemma {:induction false} NoCaptureBefore(pre: string, after: string, r: nat)
    requires 'f' !in pre && r < |pre|
    ensures CaptureAt(pre + after, r).None?
  {
    var c := pre + after;
    assert c[r] == pre[r] != 'f';
    if r + |FilenameWord| <= |c| {
      assert c[r..r + |FilenameWord|][0] == c[r];
    }
  }

  /** The leftmost match is at `p` when it matches there and nowhere
      before. */
  lemma {:induction false} FirstCaptureIs(c: string, p: nat)
    requires p <= |c| && CaptureAt(c, p).Some?
    requires forall r :: 0 <= r < p ==> CaptureAt(c, r).None?
    ensures DispositionFilename(c) == CaptureAt(c, p)
  {
    var q := FirstCapture(c, 0);
    assert q.Some? && q.value == p;
  }

  /** A quoted value right after `filename=`. */
  lemma {:induction false} CaptureQuoted(c: string, p: nat, n: nat)
    requires OccursAt(c, FilenameWord, p)
    requires p + |FilenameWord| + 2 + n < |c|
    requires c[p + |FilenameWord|] == '=' && c[p + |FilenameWord| + 1] == '"'
    requires forall j :: p + |FilenameWord| + 2 <= j < p + |FilenameWord| + 2 + n ==> c[j] != '"' && !IsLineTerminator(c[j])
    requires c[p + |FilenameWord| + 2 + n] == '"'
    ensures CaptureAt(c, p) == Some(c[p + |FilenameWord| + 1..p + |FilenameWord| + 3 + n])
  {
    var v := p + |FilenameWord| + 1;
    assert ParamNameEnd(c, p + |FilenameWord|) == v - 1;
    QuoteCloseAfter(c, v + 1, '"', n);
  }

  /** An unquoted value right after `filename=`. */
  lemma {:induction false} CapturePlain(c: string, p: nat, n: nat)
    requires OccursAt(c, FilenameWord, p)
    requires p + |FilenameWord| + 1 + n <= |c|
    requires c[p + |FilenameWord|] == '='
    requires forall j :: p + |FilenameWord| + 1 <= j < p + |FilenameWord| + 1 + n ==> c[j] != ';' && c[j] != '\n'
    requires n == 0 || (c[p + |FilenameWord| + 1] != '"' && c[p + |FilenameWord| + 1] != '\'')
    requires p + |FilenameWord| + 1 + n == |c| || c[p + |FilenameWord| + 1 + n] in {';', '\n'}
    ensures CaptureAt(c, p) == Some(c[p + |FilenameWord| + 1..p + |FilenameWord| + 1 + n])
  {
    var v := p + |FilenameWord| + 1;
    assert ParamNameEnd(c, p + |FilenameWord|) == v - 1;
    assert PlainEnd(c, v) == v + n;
  }

  /** `filename="name"`: the quoted value is captured with its quotes. */
  lemma {:induction false} QuotedDisposition(pre: string, name: string, rest: string)
    requires forall r :: 0 <= r < |pre| ==> CaptureAt(pre + FilenameWord + "=\"" + name + "\"" + rest, r).None?
    requires '"' !in name && forall k :: 0 <= k < |name| ==> !IsLineTerminator(name[k])
    ensures DispositionFilename(pre + FilenameWord + "=\"" + name + "\"" + rest) == Some("\"" + name + "\"")
  {
    var c := pre + FilenameWord + "=\"" + name + "\"" + rest;
    var p := |pre|;
    var v := p + |FilenameWord| + 1;
    assert c[p..p + |FilenameWord|] == FilenameWord;
    assert c[v - 1] == '=' && c[v] == '"';
    forall j | v + 1 <= j < v + 1 + |name| ensures c[j] != '"' && !IsLineTerminator(c[j]) {
      assert c[j] == name[j - v - 1];
    }
    assert c[v + 1 + |name|] == '"';
    CaptureQuoted(c, p, |name|);
    assert c[v..v + |name| + 2] == "\"" + name + "\"";
    FirstCaptureIs(c, p);
  }

  /** `filename=name`: an unquoted value runs to `;`, a newline or the
      end. */
  lemma {:induction false} PlainDisposition(pre: string, name: string, rest: string)
    requires forall r :: 0 <= r < |pre| ==> CaptureAt(pre + FilenameWord + "=" + name + rest, r).None?
    requires ';' !in name && '\n' !in name && (name == [] || (name[0] != '"' && name[0] != '\''))
    requires rest == [] || rest[0] == ';' || rest[0] == '\n'
    ensures DispositionFilename(pre + FilenameWord + "=" + name + rest) == Some(name)
  {
    var c := pre + FilenameWord + "=" + name + rest;
    var p := |pre|;
    var v := p + |FilenameWord| + 1;
    assert c[p..p + |FilenameWord|] == FilenameWord;
    assert c[v - 1] == '=';
    forall j | v <= j < v + |name| ensures c[j] != ';' && c[j] != '\n' {
      assert c[j] == name[j - v];
    }
    assert c[v..v + |name|] == name;
    if rest != [] {
      assert c[v + |name|] == rest[0];
    }
    CapturePlain(c, p, |name|);
    FirstCaptureIs(c, p);
  }

  /** Cleaning a quoted name gives the name, trimmed. */
  lemma {:induction false} CleanQuotedName(name: string)
    requires '"' !in name && '\'' !in name
    ensures CleanFilename("\"" + name + "\"") == Trim(name)
  {
    var q := "\"";
    assert Keep(q, NotQuote) == [];
    KeepAppend(q + name, q, NotQuote);
    KeepAppend(q, name, NotQuote);
    KeepAll(name, NotQuote);
    assert Keep(q + name + q, NotQuote) == name;
  }

  /** The file name `downloadDocument` saves under: a non-empty explicit
      name; else the cleaned `Content-Disposition` value when there is one
      and it is not empty; else `documento`. Never empty. */
  function SavedFilename(filename: Option<string>, disposition: Option<string>): (name: string)
    ensures name != ""
    ensures Truthy(filename) ==> name == filename.value
    ensures !Truthy(filename) && Truthy(disposition) && DispositionFilename(disposition.value).Some?
      && CleanFilename(DispositionFilename(disposition.value).value) != ""
      ==> name == CleanFilename(DispositionFilename(disposition.value).value)
    ensures !Truthy(filename) && !(Truthy(disposition) && DispositionFilename(disposition.value).Some?
      && CleanFilename(DispositionFilename(disposition.value).value) != "")
      ==> name == FallbackFilename
  {
    if Truthy(filename) then filename.value
    else if !Truthy(disposition) then FallbackFilename
    else
      var m := DispositionFilename(disposition.value);
      if m.Some? && CleanFilename(m.value) != "" then CleanFilename(m.value) else FallbackFilename
  }

  // ---------------------------------------------------------------------------
  // downloadDocument
  // ---------------------------------------------------------------------------

  /** What the API answered: `res.ok`, `res.status` and the
      `Content-Disposition` header (`null` when absent). */
  datatype DownloadResponse = DownloadResponse(ok: bool, status: int, disposition: Option<string>)

  /** The outcome: the thrown error, or the name the file was saved
      under. */
  datatype DownloadResult = Refused(message: string) | Saved(filename: string)

  /** `downloadDocument(applicationId, documentId, filename)` in the
      browser: the token, then the request to `url` with `headers`, then
      the error or the file name. */
  method DownloadDocument(doc: Document, apiBase: string, app: ApplicationId, documentId: int,
                          filename: Option<string>, decode: string -> string,
                          handshake: HandshakeOutcome, response: DownloadResponse)
    returns (url: string, headers: map<string, string>, result: DownloadResult)
    modifies doc
    ensures Truthy(ReadXsrfCookie(false, old(doc.cookie), decode)) ==>
      doc.cookie == old(doc.cookie) && doc.handshakes == old(doc.handshakes)
    ensures !Truthy(ReadXsrfCookie(false, old(doc.cookie), decode)) ==>
      doc.handshakes == old(doc.handshakes) + 1
      && doc.cookie == (if handshake.Answered? then handshake.cookie else old(doc.cookie))
    ensures url == DownloadUrl(apiBase, app, documentId)
    ensures headers == DownloadHeaders(ReadXsrfCookie(false, doc.cookie, decode))
    ensures result.Refused? <==> !response.ok
    ensures result.Refused? ==> result.message == ErrorMessage(response.status)
    ensures result.Saved? ==> result.filename == SavedFilename(filename, response.disposition)
  {
    var xsrf := EnsureCsrfCookie(doc, false, decode, handshake);
    url := DownloadUrl(apiBase, app, documentId);
    headers := DownloadHeaders(xsrf);
    if !response.ok {
      return url, headers, Refused(ErrorMessage(response.status));
    }
    result := Saved(SavedFilename(filename, response.disposition));
  }
}
