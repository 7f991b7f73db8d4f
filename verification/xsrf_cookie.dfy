/** Reading the `XSRF-TOKEN` cookie out of `document.cookie`, as both
    `composables/useDocumentDownload.ts` and `plugins/api.ts` do with the
    regular expression `/(?:^|;\s*)XSRF-TOKEN=([^;]*)/`, and the page's
    cookie jar, which the Sanctum handshake (`GET /sanctum/csrf-cookie`)
    may fill. The cookie string follows section 5.4 of RFC 6265: entries
    `name=value` separated by `"; "`. */
module XsrfCookie {
  import opened Wrappers
  import opened Text

  const Token: string := "XSRF-TOKEN="

  /** The request header that carries the token back. */
  const XsrfHeader: string := "X-XSRF-TOKEN"

  /** JavaScript truthiness of a `string | null`: present and non-empty. */
  predicate Truthy(t: Option<string>) {
    t.Some? && t.value != ""
  }

  /** The end of the run of `\s` starting at `i`. */
  function SkipSpaces(c: string, i: nat): (e: nat)
    requires i <= |c|
    ensures i <= e <= |c|
    ensures forall k :: i <= k < e ==> IsSpace(c[k])
    ensures e == |c| || !IsSpace(c[e])
    decreases |c| - i
  {
    if i < |c| && IsSpace(c[i]) then SkipSpaces(c, i + 1) else i
  }

  /** Where `XSRF-TOKEN=` begins when the expression matches at position
      `p`: right there when `p` is the start (`^`), or after `;` and any
      white space (`;\s*`). */
  function MatchAt(c: string, p: nat): (e: Option<nat>)
    requires p <= |c|
    ensures e.Some? ==> OccursAt(c, Token, e.value)
    ensures e.Some? ==>
              (p == 0 && e.value == 0) || (p < |c| && c[p] == ';' && e.value == SkipSpaces(c, p + 1))
    ensures (p == 0 && OccursAt(c, Token, 0)) ==> e == Some(0)
    ensures (p < |c| && c[p] == ';' && OccursAt(c, Token, SkipSpaces(c, p + 1))) ==> e.Some?
  {
    if p == 0 && OccursAt(c, Token, 0) then Some(0)
    else if p < |c| && c[p] == ';' && OccursAt(c, Token, SkipSpaces(c, p + 1)) then Some(SkipSpaces(c, p + 1))
    else None
  }

  /** The leftmost position at or after `p` where the expression matches. */
  function FirstMatch(c: string, p: nat): (q: Option<nat>)
    requires p <= |c|
    ensures q.Some? ==> p <= q.value <= |c| && MatchAt(c, q.value).Some?
    ensures q.Some? ==> forall r :: p <= r < q.value ==> MatchAt(c, r).None?
    ensures q.None? ==> forall r :: p <= r <= |c| ==> MatchAt(c, r).None?
    decreases |c| - p
  {
    if MatchAt(c, p).Some? then Some(p)
    else if p == |c| then None
    else
      var q := FirstMatch(c, p + 1);
      NoMatchExtends(c, p, if q.Some? then q.value else |c| + 1);
      q
  }

  /** No match at `p` and none from `p + 1` up to `e` is none from `p`. */
  lemma {:induction false} NoMatchExtends(c: string, p: nat, e: int)
    requires p < |c| && MatchAt(c, p).None?
    requires forall r :: p + 1 <= r < e && r <= |c| ==> MatchAt(c, r).None?
    ensures forall r :: p <= r < e && r <= |c| ==> MatchAt(c, r).None?
  {
  }

  /** `[^;]*`: the longest prefix without `;`. */
  function UpToSemicolon(s: string): (v: string)
    ensures v <= s && ';' !in v
    ensures v == s || s[|v|] == ';'
  {
    if s == [] || s[0] == ';' then []
    else
      var rest := UpToSemicolon(s[1..]);
      assert s == [s[0]] + s[1..];
      [s[0]] + rest
  }

  /** The captured group: the raw value of the first matching entry. */
  function RawXsrfValue(cookie: string): (v: Option<string>)
    ensures v.Some? ==> ';' !in v.value
  {
    match FirstMatch(cookie, 0)
    case None => None
    case Some(q) =>
      var e := MatchAt(cookie, q).value;
      Some(UpToSemicolon(cookie[e + |Token|..]))
  }

  /** `readXsrfCookie()`: `null` on the server; otherwise the first entry's
      value passed through `decodeURIComponent` (the parameter `decode`), or
      `null` when no entry matches. */
  function ReadXsrfCookie(server: bool, cookie: string, decode: string -> string): (t: Option<string>)
    ensures server ==> t.None?
    ensures !server ==> (t.Some? <==> RawXsrfValue(cookie).Some?)
    ensures !server && RawXsrfValue(cookie).Some? ==> t == Some(decode(RawXsrfValue(cookie).value))
  {
    if server then None
    else match RawXsrfValue(cookie)
      case None => None
      case Some(raw) => Some(decode(raw))
  }

  // ---------------------------------------------------------------------------
  // Which entry is read
  // ---------------------------------------------------------------------------

  /** `[^;]*` stops exactly at the end of a value without `;`. */
  lemma {:induction false} UpToSemicolonOf(v: string, rest: string)
    requires ';' !in v && (rest == [] || rest[0] == ';')
    ensures UpToSemicolon(v + rest) == v
  {
    if v == [] {
      assert v + rest == rest;
    } else {
      assert (v + rest)[1..] == v[1..] + rest;
      UpToSemicolonOf(v[1..], rest);
      assert (v + rest)[0] == v[0] != ';';
    }
  }

  /** An occurrence of the token that starts inside `pre` and is followed by
      `;` lies wholly inside `pre`. */
  lemma {:induction false} OccurrenceInPrefix(pre: string, tail: string, e: nat)
    requires e <= |pre| && OccursAt(pre + ";" + tail, Token, e)
    ensures OccursAt(pre, Token, e)
  {
    var c := pre + ";" + tail;
    assert c[|pre|] == ';';
    forall k | 0 <= k < |Token| && e + k <= |pre|
      ensures c[e + k] == Token[k] && Token[k] != ';'
    {
      assert c[e..e + |Token|][k] == c[e + k];
    }
    assert e + |Token| <= |pre|;
    assert c[e..e + |Token|] == pre[e..e + |Token|];
  }

  /** A cookie string that starts with the entry reads that entry's value. */
  lemma {:induction false} LeadingEntry(v: string, rest: string)
    requires ';' !in v && (rest == [] || rest[0] == ';')
    ensures RawXsrfValue(Token + v + rest) == Some(v)
  {
    var c := Token + v + rest;
    assert c[..|Token|] == Token;
    assert MatchAt(c, 0) == Some(0);
    assert c[|Token|..] == v + rest;
    UpToSemicolonOf(v, rest);
  }

  /** No match starts inside a prefix that does not spell the token and is
      followed by `;`. */
  lemma {:induction false} NoMatchBefore(pre: string, tail: string, r: nat)
    requires forall i :: 0 <= i <= |pre| ==> !OccursAt(pre, Token, i)
    requires r < |pre|
    ensures MatchAt(pre + ";" + tail, r).None?
  {
    var c := pre + ";" + tail;
    if MatchAt(c, r).Some? {
      var f := MatchAt(c, r).value;
      assert c[|pre|] == ';';
      if f <= |pre| {
        OccurrenceInPrefix(pre, tail, f);
      }
      assert false;
    }
  }

  /** A match at a `;` skips the white space after it. */
  lemma {:induction false} MatchAtSeparator(pre: string, ws: string, after: string)
    requires forall k :: 0 <= k < |ws| ==> IsSpace(ws[k])
    ensures MatchAt(pre + ";" + ws + Token + after, |pre|) == Some(|pre| + 1 + |ws|)
  {
    var c := pre + ";" + ws + Token + after;
    var p := |pre|;
    var e := p + 1 + |ws|;
    assert c[e] == 'X';
    forall k | p + 1 <= k < e ensures IsSpace(c[k]) {
      assert c[k] == ws[k - p - 1];
    }
    assert SkipSpaces(c, p + 1) == e;
    assert c[e..e + |Token|] == Token;
  }

  /** An entry after `;` and optional white space is read when no match
      starts inside the text before it: the first entry wins, whatever
      follows. */
  lemma {:induction false} LaterEntry(pre: string, ws: string, v: string, rest: string)
    requires forall r :: 0 <= r < |pre| ==> MatchAt(pre + ";" + ws + Token + v + rest, r).None?
    requires forall k :: 0 <= k < |ws| ==> IsSpace(ws[k])
    requires ';' !in v && (rest == [] || rest[0] == ';')
    ensures RawXsrfValue(pre + ";" + ws + Token + v + rest) == Some(v)
  {
    var c := pre + ";" + ws + Token + v + rest;
    assert c == pre + ";" + ws + Token + (v + rest);
    MatchAtSeparator(pre, ws, v + rest);
    var e := |pre| + 1 + |ws|;
    assert FirstMatch(c, 0) == Some(|pre|);
    assert c[e + |Token|..] == v + rest;
    UpToSemicolonOf(v, rest);
    assert RawXsrfValue(c) == Some(UpToSemicolon(c[e + |Token|..]));
  }

  /** No match starts inside a prefix without `;` that does not begin with
      the token, even when the token occurs later in it. */
  lemma {:induction false} NoMatchWithoutSeparator(pre: string, tail: string, r: nat)
    requires ';' !in pre && !OccursAt(pre, Token, 0)
    requires r < |pre|
    ensures MatchAt(pre + ";" + tail, r).None?
  {
    var c := pre + ";" + tail;
    assert c[r] == pre[r];
    if r == 0 && OccursAt(c, Token, 0) {
      OccurrenceInPrefix(pre, tail, 0);
    }
  }

  /** An entry whose name merely ends in the token does not count:
      `MY-XSRF-TOKEN=a; XSRF-TOKEN=b` reads `b`. */
  lemma {:induction false} LongerNameSkipped(name: string, a: string, ws: string, v: string, rest: string)
    requires name != [] && name[0] != Token[0] && ';' !in name && ';' !in a
    requires forall k :: 0 <= k < |ws| ==> IsSpace(ws[k])
    requires ';' !in v && (rest == [] || rest[0] == ';')
    ensures RawXsrfValue(name + Token + a + ";" + ws + Token + v + rest) == Some(v)
  {
    var pre := name + Token + a;
    var c := pre + ";" + ws + Token + v + rest;
    assert c == name + Token + a + ";" + ws + Token + v + rest;
    assert ';' !in Token;
    assert pre[0] == name[0];
    forall r | 0 <= r < |pre|
      ensures MatchAt(c, r).None?
    {
      assert c == pre + ";" + (ws + Token + v + rest);
      NoMatchWithoutSeparator(pre, ws + Token + v + rest, r);
    }
    LaterEntry(pre, ws, v, rest);
  }

  /** Without the token anywhere there is nothing to read. */
  lemma {:induction false} NoEntryNoValue(cookie: string)
    requires forall i :: 0 <= i <= |cookie| ==> !OccursAt(cookie, Token, i)
    ensures RawXsrfValue(cookie) == None
  {

  }

  // ---------------------------------------------------------------------------
  // The cookie jar and the Sanctum handshake
  // ---------------------------------------------------------------------------

  /** What `GET /sanctum/csrf-cookie` does to `document.cookie`: the
      browser stores the answer's cookies (the new cookie string), or the
      request throws. */
  datatype HandshakeOutcome = Answered(cookie: string) | Failed

  /** The page's `document.cookie`; the ghost counter records the
      handshakes made. */
  class Document {
    var cookie: string
    ghost var handshakes: nat

    constructor (initial: string)
      ensures cookie == initial && handshakes == 0
    {
      cookie := initial;
      handshakes := 0;
    }

    /** One handshake request. */
    method Handshake(outcome: HandshakeOutcome)
      modifies this
      ensures handshakes == old(handshakes) + 1
      ensures cookie == (if outcome.Answered? then outcome.cookie else old(cookie))
    {
      if outcome.Answered? {
        cookie := outcome.cookie;
      }
      handshakes := handshakes + 1;
    }
  }
}
