# clientCooperative client core, in Dafny

This project models the client-side core of the cooperative's Nuxt
application and proves properties of the model. It covers:

- Colombian-peso amounts as text (`usePesosFormat`). `formatPesos` writes
  a `.` between thousands and a `,` before the centavos. `parsePesosInput`
  reads such text back, treating the last comma as the decimal mark.
  There is also the character filter and the keystroke filter.
- Role and permission checks on the signed-in user (`usePermissions`).
- The two route guards that share the session's `user` and `auth.checked`
  state:
  - the global authentication guard (`auth.global`);
  - the per-page `permission` middleware.
- The municipality catalogue (`useMunicipalities`): select options, lookup
  by id and the bounded search.
- Reading the `XSRF-TOKEN` cookie, and the Sanctum handshake that may set
  it.
- The credentialed document download (`useDocumentDownload`): URL,
  headers, error message and file-name choice.
- The request hook of the `$api` fetch instance (`plugins/api.ts`).

Amounts are exact integer numbers of cents: `Cents(123456750)` is
1234567.5. Where the source changes state in place, the model does too:

- `Session` holds `user` and `checked`.
- `Document` holds `document.cookie`.
- `RequestOptions` holds the headers the hook rewrites.

Each method is proved against pure functions: `Expected`/`UserAfter` for
the global guard, `Decide` for the permission middleware, `Select`/`Kept`
for the search loop, and `ReadXsrfCookie`, `StripContentType` and
`WithCsrfHeader` for the token and header steps. The facts about each
function are proved as lemmas.

The cookie regular expression `/(?:^|;\s*)XSRF-TOKEN=([^;]*)/` is modelled
as a leftmost-match search. So is the `Content-Disposition` expression
`/filename[^;=\n]*=((['"]).*?\2|[^;\n]*)/`, including its lazy quoted
alternative. The cookie string follows section 5.4 of RFC 6265: `name=value`
entries separated by `"; "`.

The `num < 0` test in `parsePesosInput`
(app/composables/usePesosFormat.ts:43) can never fire. The filter at line
35 has already removed `-`, which is not a peso character, so `"-5"` reads
as 500 cents. `PesosFormat.ParseIgnoresMinus` proves this for every input.
For the same reason the round trip `PesosFormat.ParseFormatRoundTrip`
returns the absolute value of a negative amount.

## Model

| member | source | states |
|---|---|---|
| PesosFormat.FormatPesos | app/composables/usePesosFormat.ts:12-21 | `undefined`, `null` and `NaN` give the empty string, and no number does |
| PesosFormat.FixedDecPart | app/composables/usePesosFormat.ts:16-18 | the decimals of `toFixed(2)` are exactly two digits |
| PesosFormat.FixedDecPartValue | app/composables/usePesosFormat.ts:16-18 | those two digits read back as the amount's centavos |
| PesosFormat.GroupThousands | app/composables/usePesosFormat.ts:19 | the grouping starts with the first digit |
| PesosFormat.GroupThousandsLength | app/composables/usePesosFormat.ts:19 | one dot per full group of three after the first: a run of `n` digits becomes `n + (n - 1) / 3` characters |
| PesosFormat.GroupThousandsKeep | app/composables/usePesosFormat.ts:19 | with the inserted dots removed, the digit run is unchanged |
| PesosFormat.GroupThousandsChars | app/composables/usePesosFormat.ts:19 | the grouping holds only digits and dots |
| PesosFormat.GroupThousandsDots | app/composables/usePesosFormat.ts:19 | a dot stands exactly at every fourth position from the right, and the length is never a multiple of four |
| PesosFormat.WithThousands | app/composables/usePesosFormat.ts:16-19 | never empty, and it starts with `-` exactly for a negative amount |
| PesosFormat.WithThousandsDigits | app/composables/usePesosFormat.ts:16-19 | the grouped integer part has no comma, and its digits are the decimal rendering of the whole pesos |
| PesosFormat.SignThenGroups | app/composables/usePesosFormat.ts:16-19 | an optional `-` before digits and dots has no comma, and its digits are those of the groups |
| PesosFormat.FormatDecimalSuffix | app/composables/usePesosFormat.ts:15-20 | a whole amount has no comma; otherwise there is exactly one comma, followed by two digits that give the centavos |
| PesosFormat.CommaThenDecimals | app/composables/usePesosFormat.ts:20 | a comma-free integer part, `,` and two digits: the comma is the only one, third from the end, and the two digits end the text |
| PesosFormat.IntegerPartOf | app/composables/usePesosFormat.ts:19-20 | what precedes the decimal suffix is the grouped integer part |
| PesosFormat.FormatGroupsThousands | app/composables/usePesosFormat.ts:12-21 | for a non-negative amount, the integer part without dots is the whole pesos, and the dots fall every three digits from the right |
| PesosFormat.FormatExamples | app/composables/usePesosFormat.ts:10 | 1234567 gives "1.234.567" and 1234567.5 gives "1.234.567,50" |
| PesosFormat.FilterPesosChars | app/composables/usePesosFormat.ts:26-28 | only digits, `.` and `,` are left |
| PesosFormat.FilterCounts | app/composables/usePesosFormat.ts:26-28 | each kept character keeps its number of occurrences, and every other character is removed |
| PesosFormat.FilterIdempotent | app/composables/usePesosFormat.ts:26-28 | filtering twice is filtering once |
| PesosFormat.FilterAppend | app/composables/usePesosFormat.ts:26-28 | filtering distributes over concatenation, so no character's fate depends on its neighbours |
| PesosFormat.ParsePesosInput | app/composables/usePesosFormat.ts:34-44 | the parse of the filtered text, whatever else the input held; never negative |
| PesosFormat.FilteredHasNoSpace | app/composables/usePesosFormat.ts:35 | removing `\s` and trimming after the filter change nothing |
| PesosFormat.ParseTrimmed | app/composables/usePesosFormat.ts:36-43 | an empty text gives `undefined`; an amount is never negative |
| PesosFormat.IntegerText | app/composables/usePesosFormat.ts:37-38 | no dot and no longer than the text; without a comma, the whole text with its dots removed |
| PesosFormat.DecimalText | app/composables/usePesosFormat.ts:37-39 | at most two characters, all digits; nothing without a comma |
| PesosFormat.MatchesPlainDecimal | app/composables/usePesosFormat.ts:41 | a text that passes `^\d*\.?\d*$` holds no comma |
| PesosFormat.ParseNumber | app/composables/usePesosFormat.ts:40-43 | an integer text that still holds a comma gives `undefined`; an amount is never negative |
| PesosFormat.LeadingDigits | app/composables/usePesosFormat.ts:41 | the longest prefix of digits: digits up to it, and no digit at it |
| PesosFormat.FractionCents | app/composables/usePesosFormat.ts:42 | the centavos that `parseFloat` reads from a fraction are below 100 |
| PesosFormat.ParseNumberWhole | app/composables/usePesosFormat.ts:40-43 | with no decimals, the digits are read as whole pesos |
| PesosFormat.ParseNumberFraction | app/composables/usePesosFormat.ts:40-43 | with decimals, the amount is the whole pesos plus the centavos of the fraction |
| PesosFormat.ParseNumberEmpty | app/composables/usePesosFormat.ts:42 | an empty `combined` parses as `'0'` |
| PesosFormat.TextsAtLastComma | app/composables/usePesosFormat.ts:37-39 | `intStr` is the text before the last comma without dots; `decStr` is the first two digits after it |
| PesosFormat.ParseWithoutComma | app/composables/usePesosFormat.ts:34-44 | without a comma, the amount is all the input's digits read as whole pesos |
| PesosFormat.ParseWithOneComma | app/composables/usePesosFormat.ts:34-44 | with one comma, the amount is the digits before it as pesos plus the first two digits after it as centavos |
| PesosFormat.ParseManyCommas | app/composables/usePesosFormat.ts:37-41 | two or more commas give `undefined` |
| PesosFormat.ParseRejectsExactly | app/composables/usePesosFormat.ts:34-44 | `undefined` exactly when nothing survives the filter or the input holds two or more commas |
| PesosFormat.ParseSeparatorsOnly | app/composables/usePesosFormat.ts:40-42 | text with separators but no digits and at most one comma reads as 0 |
| PesosFormat.ParseSeparatorsNoComma | app/composables/usePesosFormat.ts:38-42 | separators without digits or a comma read as 0 |
| PesosFormat.ParseSeparatorsOneComma | app/composables/usePesosFormat.ts:37-42 | separators without digits around one comma read as 0 |
| PesosFormat.ParseIgnoresMinus | app/composables/usePesosFormat.ts:35 | a leading `-` is dropped by the filter, so the result is that of the rest |
| PesosFormat.ParseWholePesos | app/composables/usePesosFormat.ts:34-44 | a whole number of pesos written out reads back as itself |
| PesosFormat.ParseTruncatesCentavos | app/composables/usePesosFormat.ts:39 | centavos are cut to their first two digits, not rounded |
| PesosFormat.ParseFormatRoundTrip | app/composables/usePesosFormat.ts:12-44 | parsing a formatted amount gives back its absolute value, centavos included |
| PesosFormat.PreventsKeydown | app/composables/usePesosFormat.ts:47-51 | `preventDefault` runs exactly for a key one UTF-16 unit long (one character below U+10000) that is not a digit, `.` or `,`, typed without Ctrl or Meta; the named navigation keys are longer and never blocked |
| PesosFormat.KeydownAgreesWithFilter | app/composables/usePesosFormat.ts:26-28 | a typed character below U+10000 is blocked exactly when the text filter would remove it; one above U+FFFF is two units long and never blocked |
| Text.Trim | app/composables/useMunicipalities.ts:61 | `trim()` removes white space at both ends and nothing else: the result is a slice with only white space outside it, and it neither starts nor ends with white space |
| Text.TrimEmptyIffBlank | app/composables/useMunicipalities.ts:61-62 | the trimmed text is empty exactly when the text is all white space |
| Text.TrimIdempotent | app/middleware/permission.ts:67 | trimming twice is trimming once |
| Text.Lower | app/composables/useMunicipalities.ts:61 | `toLowerCase()` keeps the length and maps each character on its own |
| Text.IsSpace | app/composables/usePesosFormat.ts:35 | no character of `\s` is a digit, `.` or `,` |
| Text.Keep | app/composables/usePesosFormat.ts:27 | the kept text is no longer than the input and holds only characters of the class |
| Text.Utf16Length | app/composables/usePesosFormat.ts:50 | `key.length` lies between the number of characters and twice it, and is 1 exactly for one character below U+10000 |
| Text.LastIndexOf | app/composables/usePesosFormat.ts:37 | `lastIndexOf` gives a position holding the character with none after it, or -1 when the character is absent |
| Text.Split | app/middleware/permission.ts:67 | `split` on the pipe character gives one more part than there are separators, and no part holds one |
| Text.JoinSplit | app/middleware/permission.ts:67 | joining the parts of a split gives the text back |
| Text.SplitJoin | app/middleware/permission.ts:67 | splitting a join of separator-free parts gives the parts back |
| Permissions.AnyInExists | app/composables/usePermissions.ts:26 | the recursive `some` is "some element is held" |
| Permissions.AllInForall | app/composables/usePermissions.ts:36 | the recursive `every` is "every element is held" |
| Permissions.HasRole | app/composables/usePermissions.ts:12-17 | a role is granted only when the user has a role list |
| Permissions.HasAnyRole | app/composables/usePermissions.ts:22-27 | never true for an empty list |
| Permissions.HasAllRoles | app/composables/usePermissions.ts:32-37 | never true for an empty list or without a role list |
| Permissions.EmptyRoleListFails | app/composables/usePermissions.ts:23 | an empty list fails both checks: there is no vacuous truth |
| Permissions.HasAnyRoleIsSome | app/composables/usePermissions.ts:22-27 | `hasAnyRole` holds exactly when some listed role passes `hasRole` |
| Permissions.HasAllRolesIsEvery | app/composables/usePermissions.ts:32-37 | `hasAllRoles` holds exactly when the list is non-empty and every listed role passes `hasRole` |
| Permissions.IsSuperAdmin | app/composables/usePermissions.ts:84 | holds exactly when `super_admin` is among the user's roles |
| Permissions.IsAdmin | app/composables/usePermissions.ts:89 | holds exactly when `admin` or `super_admin` is among the roles; every super administrator is an administrator |
| Permissions.Roles | app/composables/usePermissions.ts:94 | the listed roles are exactly those `hasRole` grants, and the list is the user's own when there is one |
| Permissions.HasPermission | app/composables/usePermissions.ts:42-53 | granted only on the client, and only when the user has a permission list |
| Permissions.HasAnyPermission | app/composables/usePermissions.ts:58-69 | granted only on the client, and only for a non-empty list |
| Permissions.HasAllPermissions | app/composables/usePermissions.ts:74-79 | granted only for a non-empty list and a user with a permission list |
| Permissions.HasAnyPermissionIsSome | app/composables/usePermissions.ts:58-69 | `hasAnyPermission` holds exactly when some listed permission passes `hasPermission` |
| Permissions.HasAllPermissionsIsEvery | app/composables/usePermissions.ts:74-79 | `hasAllPermissions` holds exactly when the list is non-empty and every listed permission is held |
| Permissions.ServerAsymmetry | app/composables/usePermissions.ts:42-79 | on the server `hasPermission` and `hasAnyPermission` deny a user who holds everything asked for, while `hasAllPermissions`, which has no server check, grants it |
| Permissions.AllPermissionsImpliesAny | app/composables/usePermissions.ts:58-79 | on the client, holding all of a list implies holding one of it |
| Permissions.AllRolesImpliesAny | app/composables/usePermissions.ts:22-37 | holding all of a list of roles implies holding one of them |
| Permissions.Permissions | app/composables/usePermissions.ts:99 | the listed permissions are exactly those `hasPermission` grants on the client |
| AuthState.Session.constructor | app/middleware/auth.global.ts:20 | a fresh session has no user, is not checked, and has made no fetch |
| AuthState.Session.FetchUser | app/middleware/permission.ts:33-39 | a load replaces the user, a throw leaves it alone and is reported, and either way one fetch is counted |
| PermissionGuard.TrimAll | app/middleware/permission.ts:67 | every part is trimmed, in order |
| PermissionGuard.RequiredPermissions | app/middleware/permission.ts:56-71 | no requirement exactly for an absent meta or the empty string; a list as it is; a string without a pipe as one untrimmed name; a string with pipes as one more name than there are pipes, the i-th being the i-th piece of the split, trimmed |
| PermissionGuard.PipeListRoundTrip | app/middleware/permission.ts:65-68 | a pipe-joined string of trimmed names asks for exactly those names, in order |
| PermissionGuard.Decide | app/middleware/permission.ts:41-80 | a redirect never targets the current page, and only goes to `/login` or `/unauthorized` |
| PermissionGuard.NoUserGoesToLogin | app/middleware/permission.ts:42-48 | without a user the visitor goes to `/login`, unless already there |
| PermissionGuard.AdminAlwaysAllowed | app/middleware/permission.ts:51-53 | an administrator passes whatever the page asks for |
| PermissionGuard.NonAdminNeedsOnePermission | app/middleware/permission.ts:55-80 | a signed-in non-administrator passes exactly when nothing is asked for, one asked permission is held, or the page is `/unauthorized`; otherwise they go to `/unauthorized` |
| PermissionGuard.EmptyListDenies | app/middleware/permission.ts:58-80 | an empty list is truthy, and nobody but an administrator passes it |
| PermissionGuard.PipeGrantsFirst | app/middleware/permission.ts:66-67 | with `a` and `b` joined by a pipe, holding the trimmed first name is enough |
| PermissionGuard.SingleNameNotTrimmed | app/middleware/permission.ts:66-68 | a single name is not trimmed, so holding only the trimmed name is not enough |
| PermissionGuard.PermissionMiddleware | app/middleware/permission.ts:22-81 | on the server: nothing, with the session untouched; on the client, one fetch when no user is loaded and none otherwise, then `Decide` on the resulting user |
| AuthGuard.GuestOnlyIsPublic | app/middleware/auth.global.ts:2-3 | every guest-only page is public, and `/unauthorized` is the only public page that is not guest-only |
| AuthGuard.UserAfter | app/middleware/auth.global.ts:20-29 | once checked, the user is untouched; a throwing fetch leaves no user |
| AuthGuard.Expected | app/middleware/auth.global.ts:18-67 | a redirect never targets the current page |
| AuthGuard.PublicPageRedirect | app/middleware/auth.global.ts:18-35 | on a public page, a signed-in user goes to `/` exactly when the page is guest-only; everyone else stays |
| AuthGuard.ProtectedPageNeedsUser | app/middleware/auth.global.ts:38-67 | a protected page is shown exactly when there is a user after the check; otherwise, a throw included, the visitor goes to `/login` |
| AuthGuard.Guard | app/middleware/auth.global.ts:1-68 | on the server: allow and change nothing. On the client: fetch only while unchecked; `checked` ends true on every path, the throwing one included; the user is `UserAfter`; the result is `Expected` |
| AuthGuard.TwoNavigations | app/middleware/auth.global.ts:20-29 | two client navigations fetch at most once, and the user is decided by the first |
| Municipalities.GetLabel | app/composables/useMunicipalities.ts:52-54 | the label is the name alone when the department name is empty or missing, and otherwise the name followed by ` (department)` |
| Municipalities.OptionOf | app/composables/useMunicipalities.ts:27-34 | the option carries the entry's id, name and department name, and the label `getLabel` gives |
| Municipalities.Options | app/composables/useMunicipalities.ts:27-34 | one option per entry, in order, each the `OptionOf` the entry |
| Municipalities.ByCity | app/composables/useMunicipalities.ts:37-39 | one choice per option: the value is the id and the label is the label |
| Municipalities.ByLabel | app/composables/useMunicipalities.ts:42-44 | one choice per option: value and label are both the label |
| Municipalities.FirstWithId | app/composables/useMunicipalities.ts:48 | the first index holding the id, or none when no entry has it |
| Municipalities.GetById | app/composables/useMunicipalities.ts:46-49 | nothing for a missing id; otherwise the first entry with that id, or nothing when none has it |
| Municipalities.Matches | app/composables/useMunicipalities.ts:68 | an empty query matches every option, and a match needs a label or department name at least as long as the query |
| Municipalities.Select | app/composables/useMunicipalities.ts:65-71 | the accepted options' `{id, label}` in order, never more than the options |
| Municipalities.SelectStep | app/composables/useMunicipalities.ts:67-69 | one more option adds its `{id, label}` exactly when the test accepts it |
| Municipalities.Matching | app/composables/useMunicipalities.ts:65-71 | the matches for a query are never more than the options |
| Municipalities.MatchingAppend | app/composables/useMunicipalities.ts:65-71 | matching distributes over concatenation |
| Municipalities.MatchingSound | app/composables/useMunicipalities.ts:68-69 | every result comes from an option whose label or department name contains the query |
| Municipalities.MatchingComplete | app/composables/useMunicipalities.ts:68-69 | every matching option is among the results |
| Municipalities.SliceEnd | app/composables/useMunicipalities.ts:63 | the end index of `slice(0, limit)`: `min(limit, n)` for a non-negative limit, and counted from the end for a negative one |
| Municipalities.IdLabels | app/composables/useMunicipalities.ts:63 | one `{id, label}` per option, in order |
| Municipalities.Kept | app/composables/useMunicipalities.ts:67 | the loop keeps no more than it found and no more than the limit, and everything it found when that is under the limit |
| Municipalities.StopsAtLimit | app/composables/useMunicipalities.ts:66-71 | where the loop stops, it holds the first `Kept` matches |
| Municipalities.CollectMatches | app/composables/useMunicipalities.ts:65-71 | the loop returns the first `Kept` of the options the test accepts, in order |
| Municipalities.GetFilteredOptions | app/composables/useMunicipalities.ts:60-72 | with `limit` 80 unless given, a blank search gives the first `limit` options; otherwise the matching options in order, cut at `limit` |
| XsrfCookie.SkipSpaces | app/composables/useDocumentDownload.ts:11 | `\s*` consumes white space only, up to the first other character |
| XsrfCookie.MatchAt | app/composables/useDocumentDownload.ts:11 | a match at a position exactly when the token is at the start of the string, or after a `;` and white space; the result is where the token starts |
| XsrfCookie.FirstMatch | app/composables/useDocumentDownload.ts:11 | the leftmost match: none before it, or none at all |
| XsrfCookie.UpToSemicolon | app/composables/useDocumentDownload.ts:11 | `[^;]*` is the longest prefix without `;` |
| XsrfCookie.RawXsrfValue | app/composables/useDocumentDownload.ts:11 | the captured value never holds `;` |
| XsrfCookie.ReadXsrfCookie | app/composables/useDocumentDownload.ts:9-13 | `null` on the server; on the client, a value exactly when an entry matches, and then the decoded capture |
| XsrfCookie.UpToSemicolonOf | app/composables/useDocumentDownload.ts:11 | the capture stops exactly at the end of a value |
| XsrfCookie.LeadingEntry | app/composables/useDocumentDownload.ts:11 | a cookie string that starts with the entry reads that entry's value |
| XsrfCookie.LaterEntry | app/composables/useDocumentDownload.ts:11 | an entry after `;` and white space is read when no match starts before it: the first entry wins |
| XsrfCookie.NoMatchBefore | app/composables/useDocumentDownload.ts:11 | a prefix that nowhere spells the name holds no match start |
| XsrfCookie.NoMatchWithoutSeparator | app/composables/useDocumentDownload.ts:11 | a prefix without `;` that does not start with the name holds no match start |
| XsrfCookie.LongerNameSkipped | app/composables/useDocumentDownload.ts:11 | a longer name ending in `XSRF-TOKEN` is skipped: `MY-XSRF-TOKEN=a; XSRF-TOKEN=b` reads `b` |
| XsrfCookie.NoEntryNoValue | app/composables/useDocumentDownload.ts:11-12 | without the name anywhere, nothing is read |
| XsrfCookie.Document.constructor | app/composables/useDocumentDownload.ts:11 | the page starts with its cookie string and no handshake |
| XsrfCookie.Document.Handshake | app/composables/useDocumentDownload.ts:18-25 | one handshake is counted; an answer replaces the cookie string, and a failure leaves it |
| DocumentDownload.ApiBase | app/composables/useDocumentDownload.ts:7 | the configured base when it is non-empty, else `http://localhost:8000`; never empty |
| DocumentDownload.EnsureCsrfCookie | app/composables/useDocumentDownload.ts:15-27 | `null` on the server; an existing token with no request; otherwise one handshake, its failure ignored, and the cookie read again |
| DocumentDownload.DownloadUrl | app/composables/useDocumentDownload.ts:35 | the URL starts with the API base |
| DocumentDownload.UrlIds | app/composables/useDocumentDownload.ts:35 | the application id sits right after `/api/credit-applications/`, and the document id right before `/download` |
| DocumentDownload.DownloadHeaders | app/composables/useDocumentDownload.ts:40-44 | `Accept` and `X-Requested-With` always; `X-XSRF-TOKEN`, holding the token, exactly when the token is non-empty |
| DocumentDownload.ErrorMessage | app/composables/useDocumentDownload.ts:47-49 | the message carries the status right after `Error ` |
| DocumentDownload.ErrorMessageStatus | app/composables/useDocumentDownload.ts:48 | the status is the text between `Error ` and the first `:` |
| DocumentDownload.ParamNameEnd | app/composables/useDocumentDownload.ts:55 | `[^;=\n]*` stops at the first `;`, `=` or newline |
| DocumentDownload.QuoteClose | app/composables/useDocumentDownload.ts:55 | the lazy `.*?\2` ends at the first matching quote, with no line terminator before it |
| DocumentDownload.PlainEnd | app/composables/useDocumentDownload.ts:55 | `[^;\n]*` stops at the first `;` or newline |
| DocumentDownload.CaptureAt | app/composables/useDocumentDownload.ts:55 | a capture at a position only where `filename` is spelled there |
| DocumentDownload.FirstCapture | app/composables/useDocumentDownload.ts:55 | the leftmost match of the file-name expression |
| DocumentDownload.DispositionFilename | app/composables/useDocumentDownload.ts:55-56 | a capture exactly when the expression matches somewhere |
| DocumentDownload.CleanFilename | app/composables/useDocumentDownload.ts:57 | no quote is left, and the name is trimmed |
| DocumentDownload.QuotedDisposition | app/composables/useDocumentDownload.ts:55 | `filename="name"` captures the quoted name with its quotes, when no capture starts before it |
| DocumentDownload.PlainDisposition | app/composables/useDocumentDownload.ts:55 | `filename=name` captures the name up to `;`, a newline or the end, when no capture starts before it |
| DocumentDownload.NoCaptureBefore | app/composables/useDocumentDownload.ts:55 | a prefix without `f` holds no capture start |
| DocumentDownload.CleanQuotedName | app/composables/useDocumentDownload.ts:57 | cleaning a quoted name gives the name, trimmed |
| DocumentDownload.SavedFilename | app/composables/useDocumentDownload.ts:52-60 | never empty; an explicit name wins; otherwise the cleaned capture when it is non-empty; otherwise `documento` |
| DocumentDownload.DownloadDocument | app/composables/useDocumentDownload.ts:29-60 | a handshake exactly when the cookie held no truthy token, which sets the cookie when answered; the URL and the headers carry the token now in the cookie; a failed response is refused with its status message; otherwise the file name is `SavedFilename` |
| ApiPlugin.RequestOptions.constructor | app/plugins/api.ts:6-13 | the instance defaults merged with the caller's headers, which win |
| ApiPlugin.StripContentType | app/plugins/api.ts:16-20 | for `FormData`, exactly `Content-Type` is dropped and the rest is kept; other bodies are untouched |
| ApiPlugin.WithCsrfHeader | app/plugins/api.ts:23-28 | a non-empty token adds `X-XSRF-TOKEN` and keeps every other header; otherwise nothing changes |
| ApiPlugin.RewriteIdempotent | app/plugins/api.ts:14-29 | running either rewrite twice is running it once |
| ApiPlugin.ContentTypeAfterHook | app/plugins/api.ts:6-29 | a JSON request keeps `application/json` unless the caller set its own; a form upload never sends `Content-Type` |
| ApiPlugin.GetCsrfToken | app/plugins/api.ts:40-55 | `null` on the server with no request; one handshake only when the cookie value is missing or empty, its failure swallowed; then the value read again |
| ApiPlugin.Csrf | app/plugins/api.ts:57-59 | the same lookup: nothing on the server; no handshake when the cookie holds a truthy token; otherwise one handshake that sets the cookie when answered; then the cookie's value |
| ApiPlugin.OnRequest | app/plugins/api.ts:14-29 | the token lookup of `Csrf`, with its handshake rule; then the headers become the `Content-Type` strip followed by the token header, and the body is untouched |

## Left out

- `toFixed(2)` rounding is not modelled: amounts are whole cents, so values with more than two decimals, exponent notation and binary floating point are outside the model.
- `fetchUser` and `useAuth` are not part of this model. A fetch is a `FetchOutcome` parameter that either loads a user (possibly none) or throws.
- The network is a parameter. The Sanctum handshake's answer is a `HandshakeOutcome`, and the download's answer is a `DownloadResponse`.
- A failing `fetch` inside `downloadDocument` propagates as a rejection in the source. The model has no such outcome.
- `decodeURIComponent` is the function parameter `decode`. Its `URIError` on malformed escapes is not modelled.
- `String.prototype.toLowerCase` is modelled for ASCII and Latin-1 capitals only. Other scripts map to themselves.
- Headers are a plain map from name to value. The `Headers` class, case-insensitive names and arrays of pairs are not modelled.
- The `$fetch.create` base URL `${apiBase}/api` and `credentials: 'include'` are transport settings and are not modelled.
- Async interleaving is not modelled. Each middleware or hook runs to completion before the next starts.
- The `Blob`, the object URL and the temporary anchor that `downloadDocument` creates, clicks and removes are not modelled. The model stops at the chosen file name.
- The municipality catalogue, loaded from `municipalities.json`, is a parameter. The `computed` wrappers are plain functions of it.
- `nuxt.config.ts` and the type files other than `AuthUser` describe data the core does not compute with, and are not modelled.
- `console.warn` in `getCsrfToken` is not modelled.
