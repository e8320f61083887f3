# Reverse proxy for `/map`, `/api` and `/ows`

This project models the request handler that `makeProxyHandler` in
`src/lib/proxy.ts` builds, and proves properties of that model. The handler
forwards every request under a fixed prefix to one upstream origin. When
the upstream only flips the trailing slash of the route root, it follows
that redirect once. It rewrites any other redirect to a path on the
proxy's own origin and strips the `Domain` attribute from cookies. For the
`/map` route it also rewrites HTML and CSS bodies, so that root-absolute
references point back under `/map/`.

Modules, one per file:

- `Text` (`text.dfy`): characters and strings. It covers white space and word
  characters as JavaScript regular expressions see them, ASCII case
  folding for the `i` flag, `startsWith`/`endsWith`/`includes`, `trim`,
  `split` on one character, and `join`.
- `UrlMapping` (`url_mapping.dfy`): `upstreamPathFromLocal` as
  `UpstreamPathFromLocal` (`src/lib/proxy.ts:63-67`), plus
  `rewriteLocationToLocal` after URL resolution (`src/lib/proxy.ts:69-72`),
  as written (`LocalLocation`) and corrected (`SafeLocation`, see
  "## Findings").
- `HtmlRewrite` (`html_rewrite.dfy`): `injectBaseHref` as `InjectBaseHref`
  (`src/lib/proxy.ts:7-10`), and `rewriteRootAbsAttrs` as
  `RewriteRootAbsAttrs`, two runs of the scanner `AttrPass`
  (`src/lib/proxy.ts:12-17`).
- `Srcset` (`srcset.dfy`): `rewriteSrcset` as `RewriteSrcset`, the scanner
  `SrcsetPass` with the replace callback `RewriteList`, which applies
  `RewriteEntry` to each comma-separated part (`src/lib/proxy.ts:19-33`).
- `CssRewrite` (`css_rewrite.dfy`): `rewriteCssUrls` as `RewriteCssUrls`,
  the scanner `UrlPass` (`src/lib/proxy.ts:35-38`).
- `Cookies` (`cookies.dfy`): the `Set-Cookie` rewrite
  `replace(/;\s*Domain=[^;]+/i, '')` as `StripDomain`
  (`src/lib/proxy.ts:130` and `:133`).
- `Headers` (`headers.dfy`): the Fetch `Headers` object as a class over an
  ordered field list. It has `get`, `getSetCookie`, `set`, `delete` and
  `append`, and header names are compared without regard to ASCII case.
- `Body` (`body.dfy`): `maybeRewriteBody` (`src/lib/proxy.ts:40-59`): the
  HTML chain `RewriteHtml` (`src/lib/proxy.ts:48-51`), the choice by
  content type `RewriteBodyText`, and the result `MaybeRewritten`, computed
  by the method `MaybeRewriteBody`.
- `Handler` (`handler.dfy`): the handler itself, written as the method
  `Handle` and specified by the function `Respond`
  (`src/lib/proxy.ts:82-143`). The slash-flip refetch is `HopsOf`
  (`src/lib/proxy.ts:88-112`), the redirect rule `RedirectRule`
  (`src/lib/proxy.ts:116-123`), the cookie loop `CookieRule`
  (`src/lib/proxy.ts:125-135`), and the last steps, from the header copy to
  the body rewrite, `Finish` (`src/lib/proxy.ts:114-142`). Lemmas state
  their properties.

Regular expressions are modelled as explicit scanners over the text. A
global replace is a recursive pass with these cases:

- where the pattern matches at the front of the remaining text, write the
  replacement and resume after the match;
- otherwise copy one character.

A flag that says whether a word character precedes models `\b`.

The code and the intent written beside it disagree in a few places. The
model follows the code:

- Root-absolute attributes. The comment at `src/lib/proxy.ts:13` says
  `"/x"` becomes `"/map/x"`. The replacement at lines 15-16 is `$1=$2map/`,
  and it replaces the matched `/`. So `href="/x"` becomes `href="map/x"`, a
  relative reference, which the injected `<base href="/map/">` then
  resolves under `/map/`. `HtmlRewrite.RootValueRewritten` states exactly
  this.
- Failed location resolution. `new URL` at lines 100 and 120 stands
  outside any `try`, so a `Location` that cannot be resolved makes the
  handler fail. It is not treated as absent. The model returns `Rejected`.
- Rewritten bodies with a status that takes no body. `new Response(text,
  …)` at line 58 throws for the statuses 101, 103, 204, 205 and 304 when
  it is given any text, even the empty one. So an HTML or CSS answer with
  such a status makes the `/map` handler fail, for instance a `304` to a
  conditional request whose `If-None-Match` went upstream. The model
  returns `Rejected` (`Body.MaybeRewritten`,
  `Handler.NullBodyRewriteRejected`).
- Domain stripping. Only the first `;\s*Domain=…` of each cookie value is
  removed, and only when a `;` comes before it.
- Cookies without `getSetCookie`. The runtime gives the cookies back as one
  value joined with `", "`, and it is set back as one cookie. Their number
  is then not preserved.
- `srcset` values. Re-joining with `", "` and trimming each candidate
  normalises the spacing of every matched value, including values whose
  URLs are already under `/map/`.
- Redirects to other hosts. The location rewrite drops the scheme and
  host of a redirect, whatever host it named. But a resolved path that
  starts with `//` is kept as it is, and a browser reads it as a
  reference to another host. This is the one place where the model does
  not follow the code: see "## Findings".

## Model

| member | source | states |
|---|---|---|
| UrlMapping.UpstreamPathFromLocal | src/lib/proxy.ts:63-67 | the prefix is a prefix of the result and the query its suffix; a path that starts with the prefix goes upstream unchanged, followed by the query |
| UrlMapping.RootSlashShapeKept | src/lib/proxy.ts:63-67 | a request to the prefix maps to the prefix, and a request to prefix + `/` maps to prefix + `/`, each followed by the query |
| UrlMapping.LocalLocation | src/lib/proxy.ts:69-72 | as written: the rewritten location of a well-formed resolved URL starts with `/`; it is not always on the proxy's origin (`UrlMapping.NetworkPathLocation`) |
| UrlMapping.NetworkPathLocation | src/lib/proxy.ts:69-72 | the resolved path `//evil.example/x` of a well-formed URL is rewritten to `//evil.example/x`, a reference that leaves the origin |
| UrlMapping.OneLeadingSlash | src/lib/proxy.ts:71 | the reference with its leading run of separators (`/`, `\`, tab, line feed, carriage return) replaced by one `/`: always on the origin, the reference itself when that is already on the origin, and in every case exactly `/` followed by what comes after that run |
| UrlMapping.SafeLocation | src/lib/proxy.ts:116-121 | the corrected location of any resolved URL is on the page's origin: it starts with `/` and the next character is not `/`, `\`, tab, line feed or carriage return; a location `LocalLocation` already puts on the origin is kept unchanged |
| UrlMapping.LocalLocationRoundTrip | src/lib/proxy.ts:69-72 | the rewritten location reads back as exactly the path, query and fragment of the resolved URL; only the origin is lost |
| UrlMapping.SafeLocationRoundTrip | src/lib/proxy.ts:69-72 | for a well-formed resolved URL, the corrected location reads back as the path with its leading run of `/` cut down to one, and exactly the query and fragment |
| HtmlRewrite.InjectKeepsExistingBase | src/lib/proxy.ts:7-8 | a document with `<base` and white space (any case) is returned unchanged |
| HtmlRewrite.InjectWithoutHead | src/lib/proxy.ts:9 | a document where `<head…>` matches nowhere is returned unchanged |
| HtmlRewrite.InjectAfterFirstHead | src/lib/proxy.ts:9 | otherwise only the leftmost `<head…>` match changes: the text around it and the tag's attributes are kept verbatim, the name is written `<head` and `<base href="/map/">` follows the `>` |
| HtmlRewrite.InjectBaseHrefIdempotent | src/lib/proxy.ts:7-10 | injecting twice is injecting once |
| HtmlRewrite.RootValueRewritten | src/lib/proxy.ts:12-17 | `href`, `src` or `action`, in any letter case, followed by `=`, the quote and `/` (not `/map/` in any case) becomes the name as written, `=`, the quote and `map/`; scanning goes on after the match |
| HtmlRewrite.MappedValueKept | src/lib/proxy.ts:15-16 | a value already under `/map/` is kept as written, whatever the letter case of the name and of `map/` |
| HtmlRewrite.AttrPassCopies | src/lib/proxy.ts:15-16 | text in which no match can begin is copied unchanged, and the pass goes on behind it |
| HtmlRewrite.AttrPassFixpoint | src/lib/proxy.ts:15-16 | one pass leaves the text unchanged exactly when its pattern matches nowhere |
| HtmlRewrite.AttrPassLeavesNoMatch | src/lib/proxy.ts:15-16 | after a pass, neither its own pattern nor the other quote's pattern (when that one matched nowhere before) matches anywhere |
| HtmlRewrite.RewriteRootAbsAttrsUnchanged | src/lib/proxy.ts:12-17 | the document is unchanged exactly when neither the double-quote nor the single-quote pattern matches anywhere |
| HtmlRewrite.RewriteRootAbsAttrsIdempotent | src/lib/proxy.ts:12-17 | rewriting twice is rewriting once |
| Srcset.RewriteEntryWords | src/lib/proxy.ts:23-28 | a candidate whose URL starts with `/` but not `/map/` reads back as `/map` + URL with the same descriptor; any other candidate is its trimmed text; the result is trimmed |
| Srcset.RewriteEntryIdempotent | src/lib/proxy.ts:23-28 | rewriting a candidate twice is rewriting it once |
| Srcset.RewriteListEntries | src/lib/proxy.ts:21-30 | the rewritten list has as many comma-separated parts as the original; the first is the first original part rewritten, every later one is a space (the rest of the `", "` separator) and the original part rewritten, so each part, trimmed, is the original part rewritten |
| Srcset.RewriteListIdempotent | src/lib/proxy.ts:21-30 | rewriting a list twice is rewriting it once |
| Srcset.RewriteListQuoteFree | src/lib/proxy.ts:21-30 | a list without quotes is rewritten into one without quotes |
| Srcset.SrcsetValueRewritten | src/lib/proxy.ts:20-32 | `srcset=`, in any letter case, + quote + value + the same quote becomes `srcset=` in small letters + that quote + the rewritten list + that quote; scanning goes on after it |
| Srcset.SrcsetUnchangedWithoutMatch | src/lib/proxy.ts:20 | text where no `srcset` match begins is returned unchanged |
| Srcset.SrcsetPassIdempotent | src/lib/proxy.ts:20-32 | with a callback that keeps quote-free text quote-free and is idempotent on it, a second pass changes nothing |
| Srcset.RewriteSrcsetIdempotent | src/lib/proxy.ts:19-33 | rewriting twice is rewriting once |
| CssRewrite.RewriteRootReference | src/lib/proxy.ts:35-38 | `url(` in any letter case, white space, `/` and anything not `map/` (in any case) becomes `url(/map/` in small letters; the white space is dropped |
| CssRewrite.MappedReferenceKept | src/lib/proxy.ts:37 | a reference already under `/map/` is kept as written, the letter case of `url(` and `map/` and the white space after `url(` included |
| CssRewrite.QuotedReferenceUntouched | src/lib/proxy.ts:37 | a quoted `url("/…")` or `url('/…')`, `url(` in any letter case, does not match |
| CssRewrite.UrlPassCopies | src/lib/proxy.ts:37 | text without a `u` (any case) is copied unchanged |
| CssRewrite.RewriteCssUrlsUnchanged | src/lib/proxy.ts:35-38 | a style sheet is unchanged exactly when the pattern matches nowhere in it |
| CssRewrite.RewriteCssUrlsIdempotent | src/lib/proxy.ts:35-38 | rewriting twice is rewriting once |
| Cookies.FindDomain | src/lib/proxy.ts:130 | the position found is a match of `;\s*Domain=[^;]+` (any case) with none before it; none is found only when there is no match |
| Cookies.StripDomainWithout | src/lib/proxy.ts:130 | a cookie without a `Domain` attribute is kept as it is |
| Cookies.StripDomainFirst | src/lib/proxy.ts:130 | with one, exactly the first match is cut out, up to the next `;` or the end; what stands before and after it is kept |
| Cookies.StripDomainUnchanged | src/lib/proxy.ts:130 | the cookie changes exactly when it has a `Domain` attribute |
| Cookies.StripDomainSole | src/lib/proxy.ts:130 | when the only `Domain` attribute is stripped, none is left |
| Headers.GetValue | src/lib/proxy.ts:118 | `get` gives no value exactly when no field has that name |
| Headers.HeaderList.constructor | src/lib/proxy.ts:114 | the copy holds the fields of the original |
| Headers.HeaderList.Set | src/lib/proxy.ts:120-121 | afterwards the name has the single value given, so `get` gives exactly that value; every other name keeps its values |
| Headers.HeaderList.Delete | src/lib/proxy.ts:57 | afterwards the name has no value and `get` gives nothing; every other name keeps its values |
| Headers.GetAfterSet | src/lib/proxy.ts:120-121 | after `set(n, v)`, `get(n)` gives exactly `v`, and `get` of any other name gives what it gave before |
| Headers.GetAfterDelete | src/lib/proxy.ts:57 | after `delete(n)`, `get(n)` gives nothing, and `get` of any other name gives what it gave before |
| Headers.HeaderList.Append | src/lib/proxy.ts:130 | afterwards the value given comes last among the name's values; every other name keeps its values |
| Headers.ValuesSet | src/lib/proxy.ts:120-121 | `set` as a function on the field list: the only value for the name is the one given, other names unchanged |
| Headers.ValuesWithout | src/lib/proxy.ts:129 | `delete` as a function on the field list: no value for the name, other names unchanged |
| Headers.WithoutSet | src/lib/proxy.ts:120-121 | `set` touches only the fields of its name |
| Headers.WithoutTwice | src/lib/proxy.ts:57 | deleting twice is deleting once |
| Body.RewriteBodyText | src/lib/proxy.ts:42-54 | no rewrite exactly when the content type names neither `text/html` nor `text/css` |
| Body.BodyRewritten | src/lib/proxy.ts:58 | the status is always kept |
| Body.MaybeRewritten | src/lib/proxy.ts:40-59 | no response exactly when an HTML or CSS body is rewritten for a status that takes no body; otherwise the response of `BodyRewritten` |
| Body.MaybeRewriteBody | src/lib/proxy.ts:40-59 | the method computes the outcome that `MaybeRewritten` specifies |
| Body.RewriteFailsOnNullBody | src/lib/proxy.ts:45-58 | building the new response fails exactly for an HTML or CSS answer with status 101, 103, 204, 205 or 304; an answer passed on untouched never fails |
| Body.PassThrough | src/lib/proxy.ts:45 | a response that is neither HTML nor CSS comes back as it was |
| Body.RewriteKeepsStatus | src/lib/proxy.ts:47-58 | when rewriting, the status stays, `content-length` goes, every other header keeps its values; HTML gets base injection, then attributes, then `srcset`; CSS only the `url(` rewrite |
| Body.BodyRewrittenKeeps | src/lib/proxy.ts:56-58 | every header other than `content-length` keeps its values, rewritten or not |
| Body.CssBodyIdempotent | src/lib/proxy.ts:52-53 | rewriting a style sheet response twice is rewriting it once |
| Body.CleanHtmlKept | src/lib/proxy.ts:48-51 | a page with a base tag and no attribute or `srcset` match keeps its text |
| Handler.StrippedAll | src/lib/proxy.ts:130 | as many cookies as given, the i-th being the i-th stripped |
| Handler.Hops | src/lib/proxy.ts:89-112 | the fetches made and the response kept are those `HopsOf` specifies |
| Handler.RewriteRedirect | src/lib/proxy.ts:117-123 | the header edits are those `RedirectRule` specifies; the result is false exactly when the location cannot be resolved |
| Handler.StripCookieDomains | src/lib/proxy.ts:126-135 | the delete-and-append loop, or the single get/set, leaves the fields `CookieRule` specifies (loop invariant: the kept fields, then the stripped cookies so far); with `getSetCookie`, `getSetCookie()` afterwards gives the cookies it gave before, stripped, in order |
| Handler.CookieRuleGetSetCookie | src/lib/proxy.ts:127-134 | with `getSetCookie`, the cookies after the cookie rule are those before it, stripped, in order, and none when there were none |
| Handler.CookieRuleKeepsOthers | src/lib/proxy.ts:126-135 | the cookie rule changes no header other than `set-cookie` |
| Handler.Respond | src/lib/proxy.ts:82-143 | the fetches the handler makes are exactly those of the first hop and the slash-flip refetch (`HopsOf`), whatever the outcome |
| Handler.Finish | src/lib/proxy.ts:114-142 | the redirect rule, cookie rule and body rewrite make no fetch of their own, and a served response keeps the status of the last upstream response |
| Handler.Handle | src/lib/proxy.ts:82-142 | the handler's outcome is the one `Respond` specifies |
| Handler.NullBodyRewriteRejected | src/lib/proxy.ts:141-142 | with the body rewrite on and a redirect rule that applies, the handler fails exactly when the last answer is HTML or CSS with a status that takes no body |
| Handler.AtMostOneRefetch | src/lib/proxy.ts:96-112 | one or two fetches, the first to the mapped local path |
| Handler.RefetchExactlyOnFlip | src/lib/proxy.ts:97-110 | a second fetch happens exactly when the first answer is a 3xx with a location that resolves to the prefix or prefix + `/` and flips the local trailing slash; it goes to that target's path and query |
| Handler.BodiesOmittedForGetHead | src/lib/proxy.ts:89-109 | every fetch sends the request's method and headers, and a body only when the method is neither GET nor HEAD |
| Handler.ServedStatus | src/lib/proxy.ts:141 | a served response has the status of the last upstream answer |
| Handler.RedirectRewritten | src/lib/proxy.ts:117-123 | a 3xx with a location that resolves gets the single location `SafeLocation` of it (its path, query and fragment, with the leading run of separators cut down to one `/`) and the single `cache-control: no-store`; every other header is kept |
| Handler.RedirectOnOrigin | src/lib/proxy.ts:116-121 | whatever URL the location resolves to, every rewritten location value is on the proxy's origin |
| Handler.RedirectKeepsOthers | src/lib/proxy.ts:117-123 | the redirect rule changes no header other than `location` and `cache-control` |
| Handler.NoRedirectNoChange | src/lib/proxy.ts:117-119 | without a 3xx carrying a location, the headers are untouched, so `no-store` is never added |
| Handler.CookiesStrippedInOrder | src/lib/proxy.ts:127-130 | with `getSetCookie`, the cookies come out as many and in the same order, each with its first `Domain` attribute stripped; other headers are unchanged |
| Handler.SingleCookieStripped | src/lib/proxy.ts:131-133 | without it, the joined value becomes one cookie with its first `Domain` attribute stripped; other headers are unchanged |
| Handler.NoCookieNoChange | src/lib/proxy.ts:127-134 | without cookies the cookie rule changes nothing |
| Handler.FinishCookies | src/lib/proxy.ts:114-142 | after the redirect rule, the cookie rule and the body rewrite, the served cookies are those of the answer, stripped, in order |
| Handler.ServedCookiesStripped | src/lib/proxy.ts:125-142 | end to end: a served response carries the cookies of the last upstream answer, as many and in the same order, each stripped |

## Left out

- `fetch`, `await` and the SvelteKit `RequestHandler` plumbing are left out. The upstream is a function parameter from the fetch made to the response; a failed fetch is not modelled.
- URL resolution (`new URL` against `https://geo.so.ch`) is a foreign computation. It is a parameter that gives the resolved path, query and fragment, or nothing when the reference is invalid. A fetch target is kept as the reference that is resolved against the upstream origin, without the URL standard's path normalisation. A resolved URL is well-formed (`UrlMapping.WellFormed`) when it has the shape the URL standard gives an `https` URL: an absolute path with no `?`, `#`, `\`, tab or line break, a query that is empty or starts with `?`, and a fragment that is empty or starts with `#`. Only the round-trip lemmas assume it.
- Bodies are whole strings. Streaming, the decoding done by `text()`, and a request body stream read by both fetches are not modelled.
- The copy made by `new Headers(...)` keeps the field list as it is. The Fetch standard's sorting and combining of fields on copy is left out. So are header guards (which make some names immutable or ignored), name validation and value normalisation.
- Characters are Dafny characters, not UTF-16 code units. Case folding covers ASCII only, which is what the `i` flag does without `u`.
- The `try`/`catch` around the cookie code (lines 126-135) is runtime feature detection. Whether `getSetCookie` exists is a parameter, and no exception arises inside the model.
- The commented-out header deletions (lines 137-139) do nothing and are not modelled.
- `new Response` throws a RangeError for a status outside 200-599. The model does not capture this. It does capture the failure for a status that takes no body.
- Body.CleanHtmlKept: gives a sufficient condition for an HTML body to be kept. It is not an if-and-only-if. The three HTML rewrites are proved idempotent only one at a time. Their chain is not idempotent. For example, `srcset="a href= "/y"` becomes `srcset="a href="/y"`, because trimming the candidate removes the space, and a second run then rewrites `href="/y` to `href="map/y`. No lemma states this.

## Findings

| source | as written | input that shows it | evidently intended | confidence | as-written member | corrected member |
|---|---|---|---|---|---|---|
| src/lib/proxy.ts:69-72 | the location is the resolved path, query and fragment, so a path that starts with `//` stays a network-path reference | an upstream `Location: /..//evil.example/x` (or `https://geo.so.ch//evil.example/x`) resolves to the path `//evil.example/x`; the browser then goes to `evil.example` | the comment at line 116 says client-side redirects stay on the proxy's origin; replacing the leading run of `/`, `\`, tab, line feed and carriage return by one `/` keeps them there, for any scheme | medium, not executed | UrlMapping.NetworkPathLocation | UrlMapping.SafeLocation |

The handler model uses the corrected `SafeLocation` in its redirect rule
(`Handler.RedirectRule`). `Handler.RedirectOnOrigin` proves that the
redirect then stays on the origin, whatever URL the location resolves to.
