/** The request handler `makeProxyHandler` builds: forward the request,
    follow a slash-flip redirect of the route root once, keep redirects on
    the proxy's origin, strip cookie domains, and rewrite the body when
    asked to. */
module Handler {
  import opened Text
  import opened Headers
  import opened UrlMapping
  import opened Cookies
  import opened Body

  /** The options of `makeProxyHandler`. */
  datatype Config = Config(prefix: string, rewriteHtml: bool)

  /** The incoming request: method, local path and query, headers, body. */
  datatype Request = Request(verb: string, pathname: string, search: string, headers: seq<Field>, body: Option<string>)

  /** One call of `fetch`: the reference resolved against the upstream
      origin, the method, the headers and the body sent. */
  datatype Fetch = Fetch(target: string, verb: string, headers: seq<Field>, body: Option<string>)

  /** What the handler does: the fetches it made and either the response it
      returns or, when resolving a `Location` fails or the rewritten response
      cannot be built, no response. */
  datatype Outcome = Served(fetched: seq<Fetch>, response: Response) | Rejected(fetched: seq<Fetch>)

  predicate IsRedirect(status: int) {
    300 <= status < 400
  }

  /** A header value that JavaScript treats as true: present and not empty. */
  predicate Truthy(v: Option<string>) {
    v.Some? && v.value != ""
  }

  /** GET and HEAD requests go upstream without a body. */
  function ForwardedBody(req: Request): (b: Option<string>)
    ensures req.verb == "GET" || req.verb == "HEAD" ==> b.None?
    ensures req.verb != "GET" && req.verb != "HEAD" ==> b == req.body
  {
    if req.verb == "GET" || req.verb == "HEAD" then None else req.body
  }

  /** The first hop: the local path mapped under the prefix. */
  function FirstFetch(cfg: Config, req: Request): Fetch {
    Fetch(UpstreamPathFromLocal(cfg.prefix, req.pathname, req.search), req.verb, req.headers, ForwardedBody(req))
  }

  /** The second hop, to the path and query of the redirect target. */
  function Refetch(req: Request, target: Url): Fetch {
    Fetch(target.pathname + target.search, req.verb, req.headers, ForwardedBody(req))
  }

  /** The upstream only flipped the trailing slash of the route root: the
      target is the prefix with or without `/`, and its trailing slash
      differs from the local one. */
  predicate SlashFlip(prefix: string, localPath: string, targetPath: string) {
    (targetPath == prefix || targetPath == prefix + "/")
    && EndsWith(localPath, "/") != EndsWith(targetPath, "/")
  }

  datatype Flip = NoFlip | FlipTo(target: Url) | Unresolvable

  /** The decision after the first response: a redirect with a location is
      resolved; a slash flip is followed, anything else is not. */
  function FlipOf(prefix: string, localPath: string, res: Response, resolve: string -> Option<Url>): Flip {
    if !IsRedirect(res.status) then NoFlip
    else
      var loc := GetValue(res.headers, "location");
      if !Truthy(loc) then NoFlip
      else match resolve(loc.value)
        case None => Unresolvable
        case Some(t) => if SlashFlip(prefix, localPath, t.pathname) then FlipTo(t) else NoFlip
  }

  /** The header fields after the redirect rule, or `None` when the location
      cannot be resolved: a redirect with a location gets `SafeLocation` of
      the resolved URL (its path, query and fragment, with the leading run
      of separators cut down to one `/`, so that it cannot name another
      host) and `cache-control: no-store`. */
  function RedirectRule(status: int, fs: seq<Field>, resolve: string -> Option<Url>): Option<seq<Field>> {
    var loc := GetValue(fs, "location");
    if IsRedirect(status) && Truthy(loc) then
      match resolve(loc.value)
      case None => None
      case Some(u) => Some(SetField(SetField(fs, "location", SafeLocation(u)), "cache-control", "no-store"))
    else Some(fs)
  }

  /** Each cookie with its first `Domain` attribute stripped. */
  function StrippedAll(cs: seq<string>): (r: seq<string>)
    ensures |r| == |cs|
    ensures forall i :: 0 <= i < |cs| ==> r[i] == StripDomain(cs[i])
  {
    if cs == [] then [] else [StripDomain(cs[0])] + StrippedAll(cs[1..])
  }

  /** One `set-cookie` field per value. */
  function CookieFields(cs: seq<string>): seq<Field> {
    if cs == [] then [] else [Field("set-cookie", cs[0])] + CookieFields(cs[1..])
  }

  /** The header fields after the cookie rule. With `getSetCookie` and at
      least one cookie, every cookie field is replaced by its stripped value,
      appended in order; otherwise the joined `get` value, when there is one,
      is stripped and set back. */
  function CookieRule(fs: seq<Field>, hasGetSetCookie: bool): seq<Field> {
    var multi := if hasGetSetCookie then Values(fs, "set-cookie") else [];
    if |multi| > 0 then Without(fs, "set-cookie") + CookieFields(StrippedAll(multi))
    else
      var single := GetValue(fs, "set-cookie");
      if Truthy(single) then SetField(fs, "set-cookie", StripDomain(single.value)) else fs
  }

  /** Redirect rule, cookie rule and, when configured, the body rewrite,
      applied to the last upstream response. */
  function Finish(cfg: Config, fetched: seq<Fetch>, res: Response, resolve: string -> Option<Url>, hasGetSetCookie: bool): (r: Outcome)
    ensures r.fetched == fetched
    ensures r.Served? ==> r.response.status == res.status
  {
    match RedirectRule(res.status, res.headers, resolve)
    case None => Rejected(fetched)
    case Some(fs) =>
      var out := Response(res.status, CookieRule(fs, hasGetSetCookie), res.body);
      if !cfg.rewriteHtml then Served(fetched, out)
      else match MaybeRewritten(out)
        case None => Rejected(fetched)
        case Some(o) => Served(fetched, o)
  }

  /** The fetches the handler makes, the last upstream answer, and whether
      resolving the first answer's location failed. */
  datatype Hopped = Hopped(fetched: seq<Fetch>, last: Response, thrown: bool)

  /** The first hop, followed by the refetch of a slash flip. */
  function HopsOf(cfg: Config, req: Request, upstream: Fetch -> Response, resolve: string -> Option<Url>): Hopped {
    var first := FirstFetch(cfg, req);
    var res := upstream(first);
    match FlipOf(cfg.prefix, req.pathname, res, resolve)
    case Unresolvable => Hopped([first], res, true)
    case NoFlip => Hopped([first], res, false)
    case FlipTo(t) => Hopped([first, Refetch(req, t)], upstream(Refetch(req, t)), false)
  }

  /** What the handler does for `req`, given what the upstream answers to a
      fetch, how a location resolves against the upstream origin, and whether
      the runtime's headers offer `getSetCookie`. */
  function Respond(cfg: Config, req: Request, upstream: Fetch -> Response, resolve: string -> Option<Url>, hasGetSetCookie: bool): (r: Outcome)
    ensures r.fetched == HopsOf(cfg, req, upstream, resolve).fetched
  {
    var h := HopsOf(cfg, req, upstream, resolve);
    if h.thrown then Rejected(h.fetched) else Finish(cfg, h.fetched, h.last, resolve, hasGetSetCookie)
  }

  /** Values of the fields `CookieFields(cs)`. */
  lemma {:induction false} CookieFieldsValues(cs: seq<string>, m: string)
    ensures Values(CookieFields(cs), m) == if SameName(m, "set-cookie") then cs else []
    decreases |cs|
  {
    if cs != [] {
      var f := Field("set-cookie", cs[0]);
      ValuesConcat([f], CookieFields(cs[1..]), m);
      ValuesOne(f, m);
      CookieFieldsValues(cs[1..], m);
      ConsSplit(cs);
    }
  }

  /** The cookie loop: with `getSetCookie` and at least one cookie, delete
      them all and append each one stripped; otherwise strip the joined
      value. */
  method StripCookieDomains(headers: HeaderList, hasGetSetCookie: bool)
    modifies headers
    ensures headers.fields == CookieRule(old(headers.fields), hasGetSetCookie)
    ensures hasGetSetCookie ==> headers.GetSetCookie() == StrippedAll(old(headers.GetSetCookie()))
  {
    ghost var before := headers.fields;
    assert old(headers.GetSetCookie()) == Values(before, "set-cookie");
    var multi := if hasGetSetCookie then headers.GetSetCookie() else [];
    if |multi| > 0 {
      ghost var kept := Without(headers.fields, "set-cookie");
      headers.Delete("set-cookie");
      var i := 0;
      while i < |multi|
        invariant 0 <= i <= |multi|
        invariant headers.fields == kept + CookieFields(StrippedAll(multi[..i]))
      {
        CookieLoopStep(kept, multi, i);
        headers.Append("set-cookie", StripDomain(multi[i]));
        i := i + 1;
      }
      assert multi[..i] == multi;
    } else {
      var single := headers.Get("set-cookie");
      if single.Some? && single.value != "" {
        headers.Set("set-cookie", StripDomain(single.value));
      }
    }
    assert headers.fields == CookieRule(before, hasGetSetCookie);
    CookieRuleGetSetCookie(before);
  }

  /** One turn of the cookie loop appends the next stripped cookie. */
  lemma CookieLoopStep(kept: seq<Field>, cs: seq<string>, i: nat)
    requires i < |cs|
    ensures kept + CookieFields(StrippedAll(cs[..i])) + [Field("set-cookie", StripDomain(cs[i]))]
         == kept + CookieFields(StrippedAll(cs[..i + 1]))
  {
    assert cs[..i + 1] == cs[..i] + [cs[i]];
    assert StrippedAll(cs[..i + 1]) == StrippedAll(cs[..i]) + [StripDomain(cs[i])];
    CookieFieldsSnoc(StrippedAll(cs[..i]), StripDomain(cs[i]));
  }

  lemma {:induction false} CookieFieldsSnoc(cs: seq<string>, c: string)
    ensures CookieFields(cs + [c]) == CookieFields(cs) + [Field("set-cookie", c)]
    decreases |cs|
  {
    if cs == [] {
      assert cs + [c] == [c];
    } else {
      assert (cs + [c])[1..] == cs[1..] + [c];
      CookieFieldsSnoc(cs[1..], c);
    }
  }

  /** The fetches of the handler: the first hop, and the refetch when the
      upstream only flipped the trailing slash of the route root. `thrown`
      says that the location could not be resolved. */
  method Hops(cfg: Config, req: Request, upstream: Fetch -> Response, resolve: string -> Option<Url>)
    returns (fetched: seq<Fetch>, res: Response, thrown: bool)
    ensures HopsOf(cfg, req, upstream, resolve) == Hopped(fetched, res, thrown)
  {
    var first := Fetch(UpstreamPathFromLocal(cfg.prefix, req.pathname, req.search), req.verb, req.headers, ForwardedBody(req));
    assert first == FirstFetch(cfg, req);
    res := upstream(first);
    ghost var flip := FlipOf(cfg.prefix, req.pathname, res, resolve);
    ghost var hops := HopsOf(cfg, req, upstream, resolve);
    fetched := [first];
    thrown := false;
    if 300 <= res.status < 400 {
      var loc := GetValue(res.headers, "location");
      if loc.Some? && loc.value != "" {
        var resolved := resolve(loc.value);
        if resolved.None? {
          assert flip == Unresolvable;
          assert hops == Hopped([first], res, true);
          thrown := true;
          return;
        }
        var target := resolved.value;
        var upIsPrefix := target.pathname == cfg.prefix || target.pathname == cfg.prefix + "/";
        var meIsSlash := EndsWith(req.pathname, "/");
        if upIsPrefix && meIsSlash != EndsWith(target.pathname, "/") {
          assert flip == FlipTo(target);
          var second := Fetch(target.pathname + target.search, req.verb, req.headers, ForwardedBody(req));
          assert hops == Hopped([first, second], upstream(second), false);
          res := upstream(second);
          fetched := fetched + [second];
        } else {
          assert flip == NoFlip;
          assert hops == Hopped([first], res, false);
        }
      } else {
        assert flip == NoFlip;
        assert hops == Hopped([first], res, false);
      }
    } else {
      assert flip == NoFlip;
      assert hops == Hopped([first], res, false);
    }
  }

  /** The redirect rule on the copied headers; `false` when the location
      could not be resolved. */
  method RewriteRedirect(headers: HeaderList, status: int, resolve: string -> Option<Url>) returns (ok: bool)
    modifies headers
    ensures ok == RedirectRule(status, old(headers.fields), resolve).Some?
    ensures ok ==> headers.fields == RedirectRule(status, old(headers.fields), resolve).value
  {
    ghost var fs := headers.fields;
    ghost var rule := RedirectRule(status, fs, resolve);
    if 300 <= status < 400 {
      var loc := headers.Get("location");
      assert loc == GetValue(fs, "location");
      if loc.Some? && loc.value != "" {
        var resolved := resolve(loc.value);
        if resolved.None? {
          assert rule == None;
          return false;
        }
        var target := SafeLocation(resolved.value);
        assert rule == Some(SetField(SetField(fs, "location", target), "cache-control", "no-store"));
        headers.Set("location", target);
        headers.Set("cache-control", "no-store");
        return true;
      }
    }
    assert rule == Some(fs);
    return true;
  }

  /** The handler: the steps of `makeProxyHandler`'s request function, with
      `res` reassigned after a slash-flip refetch and the copied headers
      edited in place. */
  method Handle(cfg: Config, req: Request, upstream: Fetch -> Response, resolve: string -> Option<Url>, hasGetSetCookie: bool)
    returns (out: Outcome)
    ensures out == Respond(cfg, req, upstream, resolve, hasGetSetCookie)
  {
    var fetched, res, thrown := Hops(cfg, req, upstream, resolve);
    if thrown {
      return Rejected(fetched);
    }
    assert Respond(cfg, req, upstream, resolve, hasGetSetCookie) == Finish(cfg, fetched, res, resolve, hasGetSetCookie);
    var headers := new HeaderList(res.headers);
    var ok := RewriteRedirect(headers, res.status, resolve);
    if !ok {
      return Rejected(fetched);
    }
    StripCookieDomains(headers, hasGetSetCookie);
    var response := Response(res.status, headers.fields, res.body);
    if cfg.rewriteHtml {
      var rewritten := MaybeRewriteBody(response);
      if rewritten.None? {
        return Rejected(fetched);
      }
      response := rewritten.value;
    }
    return Served(fetched, response);
  }

  /** The handler fetches once or twice, first the mapped local path. */
  lemma AtMostOneRefetch(cfg: Config, req: Request, upstream: Fetch -> Response, resolve: string -> Option<Url>)
    ensures 1 <= |HopsOf(cfg, req, upstream, resolve).fetched| <= 2
    ensures HopsOf(cfg, req, upstream, resolve).fetched[0] == FirstFetch(cfg, req)
  {
  }

  /** A second fetch happens exactly when the first answer is a redirect with
      a location that resolves to a slash flip of the route root, and it goes
      to that target's path and query. */
  lemma RefetchExactlyOnFlip(cfg: Config, req: Request, upstream: Fetch -> Response, resolve: string -> Option<Url>)
    ensures var r := HopsOf(cfg, req, upstream, resolve);
            var res := upstream(FirstFetch(cfg, req));
            var loc := GetValue(res.headers, "location");
            |r.fetched| == 2
            <==> IsRedirect(res.status) && Truthy(loc) && resolve(loc.value).Some?
                 && SlashFlip(cfg.prefix, req.pathname, resolve(loc.value).value.pathname)
    ensures var r := HopsOf(cfg, req, upstream, resolve);
            var res := upstream(FirstFetch(cfg, req));
            |r.fetched| == 2 ==> r.fetched[1] == Refetch(req, resolve(GetValue(res.headers, "location").value).value)
  {
  }

  /** Every fetch sends the request's method and headers, and a body only
      when the method is neither GET nor HEAD. */
  lemma BodiesOmittedForGetHead(cfg: Config, req: Request, upstream: Fetch -> Response, resolve: string -> Option<Url>)
    ensures var fetched := HopsOf(cfg, req, upstream, resolve).fetched;
            forall i :: 0 <= i < |fetched| ==>
              fetched[i].verb == req.verb && fetched[i].headers == req.headers && fetched[i].body == ForwardedBody(req)
  {
    var first := FirstFetch(cfg, req);
    match FlipOf(cfg.prefix, req.pathname, upstream(first), resolve)
    case Unresolvable =>
    case NoFlip =>
    case FlipTo(t) =>
      assert HopsOf(cfg, req, upstream, resolve).fetched == [first, Refetch(req, t)];
  }

  /** A served response has the status of the last upstream answer. */
  lemma ServedStatus(cfg: Config, req: Request, upstream: Fetch -> Response, resolve: string -> Option<Url>, hasGetSetCookie: bool)
    ensures var r := Respond(cfg, req, upstream, resolve, hasGetSetCookie);
            r.Served? ==> r.response.status == upstream(r.fetched[|r.fetched| - 1]).status
  {
    var h := HopsOf(cfg, req, upstream, resolve);
    assert h.last == upstream(h.fetched[|h.fetched| - 1]);
  }

  /** A redirect with a location that resolves to `u` leaves the headers with
      the single location `SafeLocation(u)`, the single `cache-control`
      value `no-store`, and every other header as it was. */
  lemma RedirectRewritten(status: int, fs: seq<Field>, resolve: string -> Option<Url>, m: string)
    requires IsRedirect(status) && Truthy(GetValue(fs, "location"))
    requires resolve(GetValue(fs, "location").value).Some?
    ensures var u := resolve(GetValue(fs, "location").value).value;
            var g := RedirectRule(status, fs, resolve);
            g.Some?
            && Values(g.value, "location") == [SafeLocation(u)]
            && Values(g.value, "cache-control") == ["no-store"]
            && (!SameName(m, "location") && !SameName(m, "cache-control") ==> Values(g.value, m) == Values(fs, m))
  {
    var u := resolve(GetValue(fs, "location").value).value;
    var f1 := SetField(fs, "location", SafeLocation(u));
    DistinctNames("location", "cache-control");
    ValuesSet(fs, "location", SafeLocation(u), "location");
    ValuesSet(f1, "cache-control", "no-store", "location");
    ValuesSet(f1, "cache-control", "no-store", "cache-control");
    ValuesSet(fs, "location", SafeLocation(u), m);
    ValuesSet(f1, "cache-control", "no-store", m);
  }

  /** A rewritten redirect points at the proxy's own origin, whatever URL the
      location resolves to. */
  lemma RedirectOnOrigin(status: int, fs: seq<Field>, resolve: string -> Option<Url>)
    requires IsRedirect(status) && Truthy(GetValue(fs, "location"))
    requires resolve(GetValue(fs, "location").value).Some?
    ensures var g := RedirectRule(status, fs, resolve);
            g.Some? && forall v :: v in Values(g.value, "location") ==> OnOrigin(v)
  {
    RedirectRewritten(status, fs, resolve, "location");
  }

  /** The redirect rule touches only `location` and `cache-control`. */
  lemma RedirectKeepsOthers(status: int, fs: seq<Field>, resolve: string -> Option<Url>, m: string)
    requires !SameName(m, "location") && !SameName(m, "cache-control")
    ensures RedirectRule(status, fs, resolve).Some? ==> Values(RedirectRule(status, fs, resolve).value, m) == Values(fs, m)
  {
    var loc := GetValue(fs, "location");
    if IsRedirect(status) && Truthy(loc) && resolve(loc.value).Some? {
      RedirectRewritten(status, fs, resolve, m);
    }
  }

  /** Without a redirect carrying a location, the headers are not touched, so
      `cache-control: no-store` is never added. */
  lemma NoRedirectNoChange(status: int, fs: seq<Field>, resolve: string -> Option<Url>)
    requires !(IsRedirect(status) && Truthy(GetValue(fs, "location")))
    ensures RedirectRule(status, fs, resolve) == Some(fs)
  {
  }

  /** With `getSetCookie`, the cookies after the cookie rule are those before
      it, stripped, in order; with none before, there are none after. */
  lemma CookieRuleGetSetCookie(fs: seq<Field>)
    ensures Values(CookieRule(fs, true), "set-cookie") == StrippedAll(Values(fs, "set-cookie"))
  {
    if Values(fs, "set-cookie") != [] {
      CookiesStrippedInOrder(fs, "set-cookie");
    }
  }

  /** With `getSetCookie` and at least one cookie, the cookies come out as
      many and in the same order, each with its first `Domain` attribute
      stripped; other headers keep their values. */
  lemma CookiesStrippedInOrder(fs: seq<Field>, m: string)
    requires Values(fs, "set-cookie") != []
    ensures var out := Values(CookieRule(fs, true), "set-cookie");
            var cs := Values(fs, "set-cookie");
            out == StrippedAll(cs) && |out| == |cs| && forall i :: 0 <= i < |cs| ==> out[i] == StripDomain(cs[i])
    ensures !SameName(m, "set-cookie") ==> Values(CookieRule(fs, true), m) == Values(fs, m)
  {
    var cs := Values(fs, "set-cookie");
    var g := CookieRule(fs, true);
    ValuesConcat(Without(fs, "set-cookie"), CookieFields(StrippedAll(cs)), "set-cookie");
    ValuesWithout(fs, "set-cookie", "set-cookie");
    CookieFieldsValues(StrippedAll(cs), "set-cookie");
    ValuesConcat(Without(fs, "set-cookie"), CookieFields(StrippedAll(cs)), m);
    ValuesWithout(fs, "set-cookie", m);
    CookieFieldsValues(StrippedAll(cs), m);
  }

  /** Without `getSetCookie`, the joined cookie value becomes one cookie with
      its first `Domain` attribute stripped; other headers keep their values. */
  lemma SingleCookieStripped(fs: seq<Field>, m: string)
    requires Truthy(GetValue(fs, "set-cookie"))
    ensures Values(CookieRule(fs, false), "set-cookie") == [StripDomain(Join(Values(fs, "set-cookie"), ", "))]
    ensures !SameName(m, "set-cookie") ==> Values(CookieRule(fs, false), m) == Values(fs, m)
  {
    var v := StripDomain(GetValue(fs, "set-cookie").value);
    ValuesSet(fs, "set-cookie", v, "set-cookie");
    ValuesSet(fs, "set-cookie", v, m);
  }

  /** With no cookie at all, the cookie rule changes nothing. */
  lemma NoCookieNoChange(fs: seq<Field>, hasGetSetCookie: bool)
    requires Values(fs, "set-cookie") == []
    ensures CookieRule(fs, hasGetSetCookie) == fs
  {
  }

  /** The cookie rule changes no header other than `set-cookie`. */
  lemma CookieRuleKeepsOthers(fs: seq<Field>, hasGetSetCookie: bool, m: string)
    requires !SameName(m, "set-cookie")
    ensures Values(CookieRule(fs, hasGetSetCookie), m) == Values(fs, m)
  {
    if hasGetSetCookie && Values(fs, "set-cookie") != [] {
      CookiesStrippedInOrder(fs, m);
    } else if !hasGetSetCookie && Truthy(GetValue(fs, "set-cookie")) {
      SingleCookieStripped(fs, m);
    }
  }

  /** With the body rewrite on, a response whose redirect rule applies fails
      exactly when the upstream answer is HTML or CSS with a status that takes
      no body (a `304` to a conditional request, say). */
  lemma NullBodyRewriteRejected(cfg: Config, fetched: seq<Fetch>, res: Response, resolve: string -> Option<Url>, hasGetSetCookie: bool)
    requires cfg.rewriteHtml && RedirectRule(res.status, res.headers, resolve).Some?
    ensures Finish(cfg, fetched, res, resolve, hasGetSetCookie).Rejected?
            <==> NullBodyStatus(res.status) && (IsHtml(ContentType(res.headers)) || IsCss(ContentType(res.headers)))
  {
    var g := RedirectRule(res.status, res.headers, resolve).value;
    DistinctNames("content-type", "location");
    DistinctNames("content-type", "cache-control");
    DistinctNames("content-type", "set-cookie");
    RedirectKeepsOthers(res.status, res.headers, resolve, "content-type");
    CookieRuleKeepsOthers(g, hasGetSetCookie, "content-type");
    var out := Response(res.status, CookieRule(g, hasGetSetCookie), res.body);
    assert ContentType(out.headers) == ContentType(res.headers);
    RewriteFailsOnNullBody(out);
  }

  /** The cookies of a response that `Finish` serves. */
  lemma FinishCookies(cfg: Config, fetched: seq<Fetch>, res: Response, resolve: string -> Option<Url>)
    requires Values(res.headers, "set-cookie") != []
    ensures var r := Finish(cfg, fetched, res, resolve, true);
            r.Served? ==> Values(r.response.headers, "set-cookie") == StrippedAll(Values(res.headers, "set-cookie"))
  {
    var rule := RedirectRule(res.status, res.headers, resolve);
    if rule.Some? {
      DistinctNames("set-cookie", "location");
      DistinctNames("set-cookie", "cache-control");
      DistinctNames("set-cookie", "content-length");
      RedirectKeepsOthers(res.status, res.headers, resolve, "set-cookie");
      CookiesStrippedInOrder(rule.value, "set-cookie");
      var out := Response(res.status, CookieRule(rule.value, true), res.body);
      BodyRewrittenKeeps(out, "set-cookie");
    }
  }

  /** End to end: with `getSetCookie`, a served response carries the cookies
      of the last upstream answer, as many and in the same order, each with
      its first `Domain` attribute stripped, whether or not the body is
      rewritten. */
  lemma ServedCookiesStripped(cfg: Config, req: Request, upstream: Fetch -> Response, resolve: string -> Option<Url>)
    ensures var last := HopsOf(cfg, req, upstream, resolve).last;
            var r := Respond(cfg, req, upstream, resolve, true);
            var cs := Values(last.headers, "set-cookie");
            r.Served? && cs != [] ==> Values(r.response.headers, "set-cookie") == StrippedAll(cs)
  {
    var h := HopsOf(cfg, req, upstream, resolve);
    if !h.thrown && Values(h.last.headers, "set-cookie") != [] {
      FinishCookies(cfg, h.fetched, h.last, resolve);
    }
  }
}
