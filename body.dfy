/** Choosing and applying the body rewrite of a response from its content
    type (`maybeRewriteBody`). */
module Body {
  import opened Text
  import opened Headers
  import HtmlRewrite
  import Srcset
  import CssRewrite

  /** A response: status, header fields and the body text. */
  datatype Response = Response(status: int, headers: seq<Field>, body: string)

  /** `get('content-type') || ''`: the announced content type, or the empty
      text without one. */
  function ContentType(fs: seq<Field>): (ct: string)
    ensures Values(fs, "content-type") == [] ==> ct == ""
    ensures Values(fs, "content-type") != [] ==> ct == Join(Values(fs, "content-type"), ", ")
  {
    match GetValue(fs, "content-type")
    case None => ""
    case Some(v) => v
  }

  predicate IsHtml(ct: string) {
    Contains(ct, "text/html")
  }

  predicate IsCss(ct: string) {
    Contains(ct, "text/css")
  }

  /** The three HTML rewrites, in the order they are applied. */
  function RewriteHtml(text: string): string {
    Srcset.RewriteSrcset(HtmlRewrite.RewriteRootAbsAttrs(HtmlRewrite.InjectBaseHref(text)))
  }

  /** The new body text for content type `ct`, or `None` when the response
      is passed on untouched. HTML wins over CSS when both are named. */
  function RewriteBodyText(ct: string, text: string): (r: Option<string>)
    ensures r.None? <==> !IsHtml(ct) && !IsCss(ct)
  {
    if IsHtml(ct) then Some(RewriteHtml(text))
    else if IsCss(ct) then Some(CssRewrite.RewriteCssUrls(text))
    else None
  }

  /** What `maybeRewriteBody` turns a response into. */
  function BodyRewritten(res: Response): (r: Response)
    ensures r.status == res.status
  {
    match RewriteBodyText(ContentType(res.headers), res.body)
    case None => res
    case Some(text) => Response(res.status, Without(res.headers, "content-length"), text)
  }

  /** The statuses for which the Fetch standard's `Response` constructor
      refuses any body, even an empty text. */
  predicate NullBodyStatus(status: int) {
    status == 101 || status == 103 || status == 204 || status == 205 || status == 304
  }

  /** What `maybeRewriteBody` gives for `res`: `None` when it throws, because
      the rewritten text is handed to `new Response` with a status that
      takes no body. */
  function MaybeRewritten(res: Response): (r: Option<Response>)
    ensures r.None? <==> RewriteBodyText(ContentType(res.headers), res.body).Some? && NullBodyStatus(res.status)
    ensures r.Some? ==> r.value == BodyRewritten(res)
  {
    if RewriteBodyText(ContentType(res.headers), res.body).Some? && NullBodyStatus(res.status) then None
    else Some(BodyRewritten(res))
  }

  /** `maybeRewriteBody`: read the content type; when it is HTML or CSS,
      rewrite the text and copy the headers without `content-length`, then
      build the new response, which fails for a status that takes no body. */
  method MaybeRewriteBody(res: Response) returns (out: Option<Response>)
    ensures out == MaybeRewritten(res)
  {
    var ct := match GetValue(res.headers, "content-type") case None => "" case Some(v) => v;
    var isHtml := Contains(ct, "text/html");
    var isCss := Contains(ct, "text/css");
    if !isHtml && !isCss {
      return Some(res);
    }
    var text := res.body;
    if isHtml {
      text := HtmlRewrite.InjectBaseHref(text);
      text := HtmlRewrite.RewriteRootAbsAttrs(text);
      text := Srcset.RewriteSrcset(text);
    } else if isCss {
      text := CssRewrite.RewriteCssUrls(text);
    }
    var headers := new HeaderList(res.headers);
    headers.Delete("content-length");
    var status := res.status;
    if status == 101 || status == 103 || status == 204 || status == 205 || status == 304 {
      return None;
    }
    out := Some(Response(status, headers.fields, text));
  }

  /** A rewritten HTML or CSS body makes the response fail exactly for the
      statuses that take no body; a response passed on untouched never
      fails. */
  lemma RewriteFailsOnNullBody(res: Response)
    ensures (IsHtml(ContentType(res.headers)) || IsCss(ContentType(res.headers))) && NullBodyStatus(res.status)
            <==> MaybeRewritten(res).None?
    ensures !IsHtml(ContentType(res.headers)) && !IsCss(ContentType(res.headers)) ==> MaybeRewritten(res) == Some(res)
  {
  }

  /** A response that is neither HTML nor CSS comes back as it was. */
  lemma PassThrough(res: Response)
    requires !IsHtml(ContentType(res.headers)) && !IsCss(ContentType(res.headers))
    ensures BodyRewritten(res) == res
  {
  }

  /** When the body is rewritten, the status stays, `content-length` goes,
      every other header keeps its values, and the text is the HTML chain or
      the CSS rewrite. */
  lemma RewriteKeepsStatus(res: Response, m: string)
    requires IsHtml(ContentType(res.headers)) || IsCss(ContentType(res.headers))
    ensures BodyRewritten(res).status == res.status
    ensures Values(BodyRewritten(res).headers, m)
         == if SameName(m, "content-length") then [] else Values(res.headers, m)
    ensures IsHtml(ContentType(res.headers)) ==> BodyRewritten(res).body == RewriteHtml(res.body)
    ensures !IsHtml(ContentType(res.headers)) ==> BodyRewritten(res).body == CssRewrite.RewriteCssUrls(res.body)
  {
    ValuesWithout(res.headers, "content-length", m);
  }

  /** Whether or not the body is rewritten, every header other than
      `content-length` keeps its values. */
  lemma BodyRewrittenKeeps(res: Response, m: string)
    requires !SameName(m, "content-length")
    ensures Values(BodyRewritten(res).headers, m) == Values(res.headers, m)
  {
    ValuesWithout(res.headers, "content-length", m);
  }

  /** Rewriting a style sheet a second time changes nothing: the content type
      survives the first rewrite and the URL rewrite is idempotent. */
  lemma CssBodyIdempotent(res: Response)
    requires IsCss(ContentType(res.headers)) && !IsHtml(ContentType(res.headers))
    ensures BodyRewritten(BodyRewritten(res)) == BodyRewritten(res)
  {
    var once := BodyRewritten(res);
    DistinctNames("content-type", "content-length");
    ValuesWithout(res.headers, "content-length", "content-type");
    assert ContentType(once.headers) == ContentType(res.headers);
    CssRewrite.RewriteCssUrlsIdempotent(res.body);
    WithoutTwice(res.headers, "content-length");
  }

  /** An HTML page that already has a base tag and in which none of the
      attribute patterns matches keeps its text; only `content-length` goes. */
  lemma CleanHtmlKept(res: Response)
    requires IsHtml(ContentType(res.headers))
    requires HtmlRewrite.HasBaseTag(res.body)
    requires HtmlRewrite.NoAttrMatch(false, res.body, '"') && HtmlRewrite.NoAttrMatch(false, res.body, '\'')
    requires Srcset.NoSrcsetMatch(false, res.body)
    ensures BodyRewritten(res) == Response(res.status, Without(res.headers, "content-length"), res.body)
  {
    HtmlRewrite.InjectKeepsExistingBase(res.body);
    HtmlRewrite.RewriteRootAbsAttrsUnchanged(res.body);
    Srcset.SrcsetUnchangedWithoutMatch(false, res.body, Srcset.RewriteList);
  }
}
