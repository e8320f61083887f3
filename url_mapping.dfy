/** How the proxy maps a local path onto the upstream and an upstream
    `Location` back onto its own origin. */
module UrlMapping {
  import opened Text

  /** The upstream path and query for a local request under `prefix`: the text
      after the prefix is put back behind the prefix, then the query string.
      As with `slice`, a prefix longer than the path leaves nothing after it. */
  function UpstreamPathFromLocal(prefix: string, localPathname: string, search: string): (r: string)
    ensures StartsWith(r, prefix) && EndsWith(r, search)
    ensures StartsWith(localPathname, prefix) ==> r == localPathname + search
  {
    var rest := if |prefix| <= |localPathname| then localPathname[|prefix|..] else "";
    prefix + rest + search
  }

  /** The trailing-slash shape of a request to the route root survives the
      mapping: `/map` goes upstream as `/map`, `/map/` as `/map/`. */
  lemma {:induction false} RootSlashShapeKept(prefix: string, search: string)
    ensures UpstreamPathFromLocal(prefix, prefix, search) == prefix + search
    ensures UpstreamPathFromLocal(prefix, prefix + "/", search) == prefix + "/" + search
  {
    assert StartsWith(prefix + "/", prefix) by { assert (prefix + "/")[..|prefix|] == prefix; }
    assert StartsWith(prefix, prefix) by { assert prefix[..|prefix|] == prefix; }
  }

  /** A URL after resolution against the upstream origin, reduced to the parts
      the proxy reads. */
  datatype Url = Url(origin: string, pathname: string, search: string, hash: string)

  /** The shape the URL standard gives the parts of a resolved `https` URL: the
      path is absolute and holds no `?`, `#` or `\\` (a backslash is read as a
      path separator) and no tab or line break (the parser removes those),
      the query is empty or starts with `?` and holds no `#`, the fragment is
      empty or starts with `#`. Nothing stops the path from starting with an
      empty segment, as in `//host/x`. */
  predicate WellFormed(u: Url) {
    StartsWith(u.pathname, "/") && '?' !in u.pathname && '#' !in u.pathname && '\\' !in u.pathname
    && '\t' !in u.pathname && '\n' !in u.pathname && '\r' !in u.pathname
    && (u.search == "" || (u.search[0] == '?' && '#' !in u.search))
    && (u.hash == "" || u.hash[0] == '#')
  }

  /** `rewriteLocationToLocal` as written, after resolution: path, query and
      fragment, without scheme and host. A path that starts with `//` gives
      a network-path reference, which a browser resolves to another host. */
  function LocalLocation(u: Url): (r: string)
    ensures WellFormed(u) ==> StartsWith(r, "/")
  {
    u.pathname + u.search + u.hash
  }

  /** A character that a browser, resolving a reference against a page,
      reads as a path separator (`/`, `\\`) or removes before parsing (tab,
      line feed, carriage return). */
  predicate IsSep(c: char) {
    c == '/' || c == '\\' || c == '\t' || c == '\n' || c == '\r'
  }

  /** A reference that a browser resolves on the origin of the page it came
      from: it starts with `/`, and the next character is not another
      separator, which would make the reference name a host. */
  predicate OnOrigin(r: string) {
    |r| > 0 && r[0] == '/' && !(|r| >= 2 && IsSep(r[1]))
  }

  /** As written, an upstream `Location` of `https://geo.so.ch//evil.example/x`
      (or `/..//evil.example/x`, which resolves to the same path) is rewritten
      to `//evil.example/x`, which leaves the proxy's origin. */
  lemma NetworkPathLocation()
    ensures var u := Url("https://geo.so.ch", "//evil.example/x", "", "");
            WellFormed(u) && LocalLocation(u) == "//evil.example/x" && !OnOrigin(LocalLocation(u))
  {
    var p := "//evil.example/x";
    assert p[..1] == "/";
    assert forall i :: 0 <= i < |p| ==> p[i] != '?' && p[i] != '#' && p[i] != '\\' && p[i] != '\t' && p[i] != '\n' && p[i] != '\r';
    assert p + "" + "" == p;
  }

  /** The length of the run of separators that `s` begins with. */
  function SepRun(s: string): (n: nat)
    ensures n <= |s|
    ensures forall i :: 0 <= i < n ==> IsSep(s[i])
    ensures n < |s| ==> !IsSep(s[n])
  {
    if |s| > 0 && IsSep(s[0]) then 1 + SepRun(s[1..]) else 0
  }

  /** A reference with its leading run of separators replaced by one `/`.
      The result is always on the origin, and a reference already on the
      origin is kept as it is. */
  function OneLeadingSlash(s: string): (r: string)
    ensures OnOrigin(r)
    ensures OnOrigin(s) ==> r == s
    ensures r == "/" + s[SepRun(s)..]
    ensures 1 <= |r| <= |s| + 1 && forall i :: 1 <= i < |r| ==> r[i] == s[|s| - |r| + i]
  {
    var n := SepRun(s);
    if n == 1 && s[0] == '/' then
      assert s == "/" + s[1..];
      s
    else
      var r := "/" + s[n..];
      assert forall i :: 1 <= i < |r| ==> r[i] == s[n..][i - 1];
      r
  }

  /** The location the proxy evidently means to produce: that of
      `LocalLocation`, with its leading run of separators replaced by one
      `/`, so that the reference never names a host. Any URL gives a location
      on the origin, and one that `LocalLocation` already puts there is
      kept. */
  function SafeLocation(u: Url): (r: string)
    ensures OnOrigin(r)
    ensures OnOrigin(LocalLocation(u)) ==> r == LocalLocation(u)
  {
    OneLeadingSlash(LocalLocation(u))
  }

  /** The run of separators of a path followed by a query or fragment (or
      nothing) lies within the path. */
  lemma SepRunOfPath(p: string, tail: string)
    requires tail == [] || tail[0] == '?' || tail[0] == '#'
    ensures SepRun(p + tail) == SepRun(p)
    decreases |p|
  {
    if |p| > 0 && IsSep(p[0]) {
      assert (p + tail)[1..] == p[1..] + tail;
      SepRunOfPath(p[1..], tail);
    } else if p == [] {
      assert p + tail == tail;
    }
  }

  /** Reads path, query and fragment back out of a reference that is a path:
      the fragment starts at the first `#`, the query at the first `?` before it. */
  function ParseLocal(s: string): Url {
    var h := match IndexOf(s, '#', 0) case Some(i) => i case None => |s|;
    var q := match IndexOf(s[..h], '?', 0) case Some(i) => i case None => h;
    Url("", s[..q], s[q..h], s[h..])
  }

  /** The rewritten location keeps path, query and fragment exactly; only
      the scheme and host of the resolved URL are not in it. */
  lemma {:induction false} LocalLocationRoundTrip(u: Url)
    requires WellFormed(u)
    ensures ParseLocal(LocalLocation(u)) == u.(origin := "")
  {
    var s := LocalLocation(u);
    var p, q := |u.pathname|, |u.pathname| + |u.search|;
    assert s[..p] == u.pathname && s[p..q] == u.search && s[q..] == u.hash;
    assert forall j :: 0 <= j < q ==> s[j] != '#' by {
      forall j | 0 <= j < q ensures s[j] != '#' {
        if j < p { assert s[j] == u.pathname[j]; } else { assert s[j] == u.search[j - p]; }
      }
    }
    if u.hash == "" {
      assert IndexOf(s, '#', 0) == None;
    } else {
      assert s[q] == '#';
      assert IndexOf(s, '#', 0) == Some(q);
    }
    assert s[..q][..p] == u.pathname;
    assert forall j :: 0 <= j < p ==> s[..q][j] != '?' by {
      forall j | 0 <= j < p ensures s[..q][j] != '?' { assert s[..q][j] == u.pathname[j]; }
    }
    if u.search == "" {
      assert IndexOf(s[..q], '?', 0) == None;
    } else {
      assert s[..q][p] == '?';
      assert IndexOf(s[..q], '?', 0) == Some(p);
    }
  }

  /** For a well-formed URL, the corrected location reads back as the path,
      with its leading run of `/` cut down to one, and exactly the query and
      fragment. */
  lemma SafeLocationRoundTrip(u: Url)
    requires WellFormed(u)
    ensures ParseLocal(SafeLocation(u)) == u.(origin := "", pathname := OneLeadingSlash(u.pathname))
  {
    var v := u.(pathname := OneLeadingSlash(u.pathname));
    SafeLocationOfPath(u);
    OneLeadingSlashWellFormed(u);
    LocalLocationRoundTrip(v);
    assert SafeLocation(u) == LocalLocation(v);
  }

  /** For a well-formed URL, the correction touches only the path. */
  lemma SafeLocationOfPath(u: Url)
    requires WellFormed(u)
    ensures SafeLocation(u) == OneLeadingSlash(u.pathname) + u.search + u.hash
  {
    var p, tail := u.pathname, u.search + u.hash;
    assert LocalLocation(u) == p + tail;
    assert u.search != "" ==> tail[0] == u.search[0];
    assert u.search == "" ==> tail == u.hash;
    assert p[0] == p[..1][0];
    OneLeadingSlashOfPath(p, tail);
  }

  /** Cutting the leading separators of a path followed by a query or
      fragment cuts those of the path alone. */
  lemma OneLeadingSlashOfPath(p: string, tail: string)
    requires |p| > 0 && p[0] == '/'
    requires tail == [] || tail[0] == '?' || tail[0] == '#'
    ensures OneLeadingSlash(p + tail) == OneLeadingSlash(p) + tail
  {
    SepRunOfPath(p, tail);
    var n := SepRun(p);
    assert (p + tail)[0] == p[0];
    if !(n == 1 && p[0] == '/') {
      assert (p + tail)[n..] == p[n..] + tail;
    }
  }

  /** Cutting the leading run of `/` keeps a resolved URL well-formed. */
  lemma OneLeadingSlashWellFormed(u: Url)
    requires WellFormed(u)
    ensures WellFormed(u.(pathname := OneLeadingSlash(u.pathname)))
  {
    var p := OneLeadingSlash(u.pathname);
    assert p[..1] == "/";
    forall c | c in p && c != '/' ensures c in u.pathname {
      var i :| 0 <= i < |p| && p[i] == c;
      assert u.pathname[|u.pathname| - |p| + i] == c;
    }
  }
}
