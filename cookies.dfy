/** Stripping the `Domain` attribute from one `Set-Cookie` value, so that the
    browser keeps the cookie for the proxy's own host: the first match of
    `;\s*Domain=[^;]+` (any letter case) is removed, nothing else. */
module Cookies {
  import opened Text

  /** `Domain=` in any letter case begins at `j`. */
  predicate DomainNameAt(t: string, j: nat) {
    CharCI(t, j, 'd') && CharCI(t, j + 1, 'o') && CharCI(t, j + 2, 'm') && CharCI(t, j + 3, 'a')
    && CharCI(t, j + 4, 'i') && CharCI(t, j + 5, 'n') && CharCI(t, j + 6, '=')
  }

  /** The position after the `;` that `f` begins with and the white space
      behind it. */
  function AfterSemi(f: string): (j: nat)
    requires |f| > 0
    ensures 1 <= j <= |f|
  {
    1 + SpaceRun(f[1..])
  }

  /** The pattern matches at the front of `f`: `;`, white space, `Domain=` and
      at least one character other than `;`. */
  predicate DomainFront(f: string) {
    |f| > 0 && f[0] == ';' && DomainNameAt(f, AfterSemi(f))
    && AfterSemi(f) + 7 < |f| && f[AfterSemi(f) + 7] != ';'
  }

  /** The pattern matches at position `i` of `t`. */
  predicate DomainAt(t: string, i: nat) {
    i < |t| && DomainFront(t[i..])
  }

  /** The length of the run of characters other than `;` that `t` begins with. */
  function NonSemiRun(t: string): (n: nat)
    ensures n <= |t|
    ensures forall k :: 0 <= k < n ==> t[k] != ';'
    ensures n < |t| ==> t[n] == ';'
  {
    if |t| > 0 && t[0] != ';' then 1 + NonSemiRun(t[1..]) else 0
  }

  /** Nothing in a match after its first character, up to the first character
      of the value, is a `;`. */
  lemma FrontSemis(f: string)
    requires DomainFront(f)
    ensures forall k :: 0 < k < AfterSemi(f) + 8 ==> f[k] != ';'
  {
    var j := AfterSemi(f);
    forall k | 0 < k < j + 8 ensures f[k] != ';' {
      if k < j { assert IsSpace(f[1..][k - 1]); }
      else if k < j + 7 { assert CharCI(f, k, LowerChar(f[k])); }
    }
  }

  /** The length of the match at the front of `f`: `[^;]+` is greedy, so it
      runs to the next `;` or to the end of the value. */
  function FrontLength(f: string): (n: nat)
    requires DomainFront(f)
    ensures AfterSemi(f) + 8 <= n <= |f|
    ensures forall k :: 0 < k < n ==> f[k] != ';'
    ensures n < |f| ==> f[n] == ';'
  {
    FrontSemis(f);
    var v := AfterSemi(f) + 7;
    v + NonSemiRun(f[v..])
  }

  /** Where the match at `i` ends. */
  function DomainEnd(t: string, i: nat): (e: nat)
    requires DomainAt(t, i)
    ensures i + 8 <= e <= |t|
    ensures e < |t| ==> t[e] == ';'
  {
    i + FrontLength(t[i..])
  }

  /** The first position at or after `from` where the pattern matches. */
  function FindDomain(t: string, from: nat): (r: Option<nat>)
    requires from <= |t|
    ensures r.Some? ==> from <= r.value < |t| && DomainAt(t, r.value)
    ensures r.Some? ==> forall p :: from <= p < r.value ==> !DomainAt(t, p)
    ensures r.None? ==> forall p :: from <= p < |t| ==> !DomainAt(t, p)
    decreases |t| - from
  {
    if from == |t| then None
    else if DomainAt(t, from) then Some(from)
    else
      var r := FindDomain(t, from + 1);
      NoMatchFrom(t, from, if r.Some? then r.value else |t|);
      r
  }

  /** No match at `from` and none from `from + 1` up to `to` is no match from
      `from` up to `to`. */
  lemma NoMatchFrom(t: string, from: nat, to: nat)
    requires from < to <= |t| && !DomainAt(t, from)
    requires forall p :: from + 1 <= p < to ==> !DomainAt(t, p)
    ensures forall p :: from <= p < to ==> !DomainAt(t, p)
  {
  }

  /** No `Domain` attribute left anywhere in the value. */
  predicate NoDomainAttr(t: string) {
    forall p :: 0 <= p < |t| ==> !DomainAt(t, p)
  }

  /** `c.replace(/;\s*Domain=[^;]+/i, '')`. */
  function StripDomain(c: string): string {
    match FindDomain(c, 0)
    case None => c
    case Some(i) => c[..i] + c[DomainEnd(c, i)..]
  }

  /** A value without a `Domain` attribute is kept as it is. */
  lemma StripDomainWithout(c: string)
    requires NoDomainAttr(c)
    ensures StripDomain(c) == c
  {
    assert FindDomain(c, 0).None?;
  }

  /** With a `Domain` attribute, exactly the first one is cut out, and what
      stands before and after it is kept. */
  lemma StripDomainFirst(c: string, i: nat)
    requires DomainAt(c, i) && forall p :: 0 <= p < i ==> !DomainAt(c, p)
    ensures StripDomain(c) == c[..i] + c[DomainEnd(c, i)..]
  {
    var f := FindDomain(c, 0);
    assert f.Some?;
    assert f.value == i by {
      assert !(f.value < i);
      assert !(i < f.value);
    }
  }

  /** The value changes exactly when it has a `Domain` attribute. */
  lemma StripDomainUnchanged(c: string)
    ensures StripDomain(c) == c <==> NoDomainAttr(c)
  {
    match FindDomain(c, 0)
    case None =>
    case Some(i) =>
      assert |StripDomain(c)| < |c|;
  }

  /** Whether a match is at the front depends only on the text up to the
      first character of the value. */
  lemma FrontSame(f: string, g: string, m: nat)
    requires DomainFront(g) && m == AfterSemi(g) + 8
    requires m <= |f| && f[..m] == g[..m]
    ensures DomainFront(f)
  {
    assert forall k :: 0 <= k < m ==> f[k] == g[k] by {
      forall k | 0 <= k < m ensures f[k] == g[k] { assert f[..m][k] == g[..m][k]; }
    }
    SpaceRunAgrees(f[1..], g[1..], m - 9);
  }

  /** Two texts that agree on a run of white space and the character after it
      have a run of the same length. */
  lemma SpaceRunAgrees(s: string, w: string, n: nat)
    requires n < |w| && SpaceRun(w) == n && n < |s|
    requires forall k :: 0 <= k <= n ==> s[k] == w[k]
    ensures SpaceRun(s) == n
  {
    assert !IsSpace(s[n]);
  }

  /** After the only `Domain` attribute is stripped, none is left: the cut
      leaves a `;` or the end of the value where the attribute was, and no
      match can run across it. */
  lemma StripDomainSole(c: string, i: nat)
    requires DomainAt(c, i) && forall p :: 0 <= p < i ==> !DomainAt(c, p)
    requires forall p :: DomainEnd(c, i) <= p < |c| ==> !DomainAt(c, p)
    ensures NoDomainAttr(StripDomain(c))
  {
    StripDomainFirst(c, i);
    var e := DomainEnd(c, i);
    var u := StripDomain(c);
    assert u[..i] == c[..i] && u[i..] == c[e..];
    forall p | 0 <= p < |u| ensures !DomainAt(u, p) {
      if p < i {
        MatchBeforeCut(c, u, i, e, p);
      } else {
        MatchAfterCut(c, u, i, e, p);
      }
    }
  }

  /** A match in the kept text before the cut ends before the cut, since what
      follows the cut is `;` or nothing, so it is a match of the original. */
  lemma MatchBeforeCut(c: string, u: string, i: nat, e: nat, p: nat)
    requires i <= |c| && i <= |u| && e <= |c| && p < i
    requires u[..i] == c[..i] && u[i..] == c[e..] && (e < |c| ==> c[e] == ';')
    ensures DomainAt(u, p) ==> DomainAt(c, p)
  {
    if DomainAt(u, p) {
      var f := u[p..];
      var m := AfterSemi(f) + 8;
      FrontSemis(f);
      assert p + m <= i by {
        if i < |u| { assert u[i] == c[e] && f[i - p] == u[i]; }
      }
      assert c[p..][..m] == f[..m] by {
        assert c[p..][..m] == c[..i][p..p + m] && f[..m] == u[..i][p..p + m];
      }
      FrontSame(c[p..], f, m);
    }
  }

  /** A match in the kept text after the cut is the match of the original at
      the same place after the cut. */
  lemma MatchAfterCut(c: string, u: string, i: nat, e: nat, p: nat)
    requires i <= |u| && e <= |c| && u[i..] == c[e..] && i <= p
    ensures DomainAt(u, p) <==> DomainAt(c, e + (p - i))
  {
    if p < |u| {
      assert u[p..] == c[e + (p - i)..] by {
        assert u[p..] == u[i..][p - i..] && c[e + (p - i)..] == c[e..][p - i..];
      }
    }
  }
}
