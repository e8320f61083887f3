/** `rewriteCssUrls`: every unquoted root-absolute `url(/…)` reference in a
    style sheet is moved under `/map/`. */
module CssRewrite {
  import opened Text

  /** Where a match can begin: the pattern has no `\b`, only the letter `u`
      in either case. */
  predicate UrlCanStart(c: char) {
    LowerChar(c) == 'u'
  }

  /** `url(` in any letter case begins `t`. */
  predicate UrlOpen(t: string) {
    CharCI(t, 0, 'u') && CharCI(t, 1, 'r') && CharCI(t, 2, 'l') && CharCI(t, 3, '(')
  }

  /** The position after `url(` and the white space behind it. */
  function AfterOpen(t: string): (k: nat)
    requires UrlOpen(t)
    ensures 4 <= k <= |t|
  {
    4 + SpaceRun(t[4..])
  }

  /** `url\(\s*\/(?!map\/)` with the `i` flag matches at the front of `t`. */
  predicate UrlMatch(t: string) {
    UrlOpen(t) && AfterOpen(t) < |t| && t[AfterOpen(t)] == '/' && !MapAt(t, AfterOpen(t) + 1)
  }

  /** One global replace: every match, white space included, becomes
      `url(/map/`, and scanning resumes after the matched `/`. */
  function UrlPass(t: string): string
    decreases |t|
  {
    if |t| == 0 then []
    else if UrlMatch(t) then "url(/map/" + UrlPass(t[AfterOpen(t) + 1..])
    else [t[0]] + UrlPass(t[1..])
  }

  /** `rewriteCssUrls`. */
  function RewriteCssUrls(css: string): string {
    UrlPass(css)
  }

  /** No match begins anywhere in `t`. */
  predicate NoUrlMatch(t: string)
    decreases |t|
  {
    |t| == 0 || (!UrlMatch(t) && NoUrlMatch(t[1..]))
  }

  /** No position of `x` can begin a match. */
  predicate NoUIn(x: string) {
    forall j :: 0 <= j < |x| ==> !UrlCanStart(x[j])
  }

  /** The white space that the pattern's `\s*` skips after `url(`. */
  predicate AllSpace(ws: string) {
    forall j :: 0 <= j < |ws| ==> IsSpace(ws[j])
  }

  /** A run of white space measured from its known end. */
  lemma SpaceRunIs(s: string, n: nat)
    requires n < |s| && !IsSpace(s[n])
    requires forall j :: 0 <= j < n ==> IsSpace(s[j])
    ensures SpaceRun(s) == n
  {
  }

  /** A pass writes first a character that folds to the same letter as its
      input's first character. */
  lemma UrlPassHead(t: string)
    requires |t| > 0
    ensures |UrlPass(t)| > 0 && LowerChar(UrlPass(t)[0]) == LowerChar(t[0])
  {
  }

  /** Where no match begins, a pass copies the first character. */
  lemma UrlPassCopyStep(t: string)
    requires |t| > 0 && !UrlMatch(t)
    ensures UrlPass(t) == [t[0]] + UrlPass(t[1..])
  {
  }

  /** Text in which no match can begin is copied unchanged. */
  lemma {:induction false} UrlPassCopies(x: string, r: string)
    requires NoUIn(x)
    ensures UrlPass(x + r) == x + UrlPass(r)
    decreases |x|
  {
    if |x| > 0 {
      var u := x + r;
      assert u[0] == x[0] && u[1..] == x[1..] + r;
      UrlPassCopyStep(u);
      assert NoUIn(x[1..]) by {
        forall j | 0 <= j < |x[1..]| ensures !UrlCanStart(x[1..][j]) { assert x[1..][j] == x[j + 1]; }
      }
      UrlPassCopies(x[1..], r);
      ConsAppend(x, UrlPass(r));
    } else {
      assert x + r == r;
    }
  }

  /** If a pass's output begins with text in which no match can begin, its
      input began with that same text. */
  lemma {:induction false} UrlPassPrefixBack(t: string, x: string)
    requires NoUIn(x)
    requires StartsWith(UrlPass(t), x)
    ensures StartsWith(t, x)
    decreases |x|
  {
    if |x| > 0 {
      StartsWithTail(UrlPass(t), x);
      UrlPassHead(t);
      UrlPassCopyStep(t);
      assert NoUIn(x[1..]) by {
        forall j | 0 <= j < |x[1..]| ensures !UrlCanStart(x[1..][j]) { assert x[1..][j] == x[j + 1]; }
      }
      UrlPassPrefixBack(t[1..], x[1..]);
      StartsWithCons(t, x);
    }
  }

  /** A pass puts no match at the front of its output that was not at the
      front of its input. */
  lemma UrlFrontKept(t: string)
    requires |t| > 0 && !UrlMatch(t)
    ensures !UrlMatch(UrlPass(t))
  {
    UrlPassCopyStep(t);
    var out := [t[0]] + UrlPass(t[1..]);
    if UrlMatch(out) {
      CopiedOpen(t);
    }
  }

  /** If the first character of `t`, copied in front of the pass over the
      rest, begins a match, then the match was already in `t`: the same
      `url(`, white space and `/` are there, and `map/` after the slash would
      have been copied too. */
  lemma CopiedOpen(t: string)
    requires |t| > 0 && UrlMatch([t[0]] + UrlPass(t[1..]))
    ensures UrlMatch(t)
  {
    var out := [t[0]] + UrlPass(t[1..]);
    var k := AfterOpen(out);
    CopiedFront(t);
    SameUrlOpen(t, out, k);
    UrlMapKept(t, out, k + 1);
    assert !MapAt(out, k + 1);
  }

  /** In that case the text and the output agree up to the `/` of the
      match, and what follows it in the output is the pass over what follows
      it in the text. */
  lemma CopiedFront(t: string)
    requires |t| > 0 && UrlMatch([t[0]] + UrlPass(t[1..]))
    ensures var out := [t[0]] + UrlPass(t[1..]); var k := AfterOpen(out);
      k + 1 <= |t| && t[..k + 1] == out[..k + 1] && out[k + 1..] == UrlPass(t[k + 1..])
  {
    var out := [t[0]] + UrlPass(t[1..]);
    var k := AfterOpen(out);
    var x := out[1..k + 1];
    OpenTailNoU(out);
    TailStartsWith(out, UrlPass(t[1..]), k);
    UrlPassPrefixBack(t[1..], x);
    TailSplit(t, x, k);
    UrlPassCopies(x, t[k + 1..]);
    SameFront(t, out, x, UrlPass(t[k + 1..]));
  }

  /** Two texts that begin with the same character, go on with `x` and then
      with `t`'s tail and `p`, agree up to there, and what is left of the
      second is `p`. */
  lemma SameFront(t: string, out: string, x: string, p: string)
    requires |t| > |x| && |out| > 0 && out[0] == t[0]
    requires t[..|x| + 1] == [t[0]] + x && out[1..] == x + p
    ensures t[..|x| + 1] == out[..|x| + 1] && out[|x| + 1..] == p
  {
    assert out[..|x| + 1] == [out[0]] + out[1..][..|x|];
    assert out[|x| + 1..] == out[1..][|x|..];
  }

  /** The output after its first character begins with its own slice. */
  lemma TailStartsWith(out: string, p: string, k: nat)
    requires 0 < k + 1 <= |out| && out[1..] == p
    ensures StartsWith(p, out[1..k + 1])
  {
    assert p[..k] == out[1..k + 1];
  }

  /** Text whose tail begins with `x` is its first character, `x` and the rest. */
  lemma TailSplit(t: string, x: string, k: nat)
    requires |t| > 0 && |x| == k && StartsWith(t[1..], x)
    ensures t[1..] == x + t[k + 1..] && t[..k + 1] == [t[0]] + x
  {
  }

  /** After its `u`, a match holds no character that could begin another. */
  lemma OpenTailNoU(out: string)
    requires UrlMatch(out)
    ensures NoUIn(out[1..AfterOpen(out) + 1])
  {
    var k := AfterOpen(out);
    var x := out[1..k + 1];
    forall j | 0 <= j < |x| ensures !UrlCanStart(x[j]) {
      assert x[j] == out[j + 1];
      if 3 <= j < k - 1 { assert IsSpace(out[4..][j - 3]); }
    }
  }

  /** Two texts that agree on `url(`, the white space and the `/` agree on
      where the `/` is. */
  lemma SameUrlOpen(t: string, out: string, k: nat)
    requires UrlMatch(out) && k == AfterOpen(out)
    requires k + 1 <= |t| && t[..k + 1] == out[..k + 1]
    ensures UrlOpen(t) && AfterOpen(t) == k && t[k] == '/'
  {
    assert forall j :: 0 <= j <= k ==> t[j] == out[j] by {
      forall j | 0 <= j <= k ensures t[j] == out[j] {
        assert t[..k + 1][j] == out[..k + 1][j];
      }
    }
    var s, o := t[4..], out[4..];
    assert forall j :: 0 <= j < k - 4 ==> IsSpace(s[j]) by {
      forall j | 0 <= j < k - 4 ensures IsSpace(s[j]) { assert s[j] == t[j + 4] && o[j] == out[j + 4]; }
    }
    assert s[k - 4] == '/';
    SpaceRunIs(s, k - 4);
  }

  /** `map/` after the slash survives a pass unchanged. */
  lemma UrlMapKept(t: string, out: string, m: nat)
    requires m <= |t| && m <= |out| && t[..m] == out[..m] && out[m..] == UrlPass(t[m..])
    ensures MapAt(t, m) ==> MapAt(out, m)
  {
    if MapAt(t, m) {
      var w := t[m..m + 4];
      assert NoUIn(w);
      assert t[m..] == w + t[m + 4..];
      UrlPassCopies(w, t[m + 4..]);
      assert out[m..][..4] == w;
    }
  }

  /** A replacement text `url(/map/` cannot begin a match itself. */
  lemma ReplacementNoMatch(r: string)
    ensures !UrlMatch("url(/map/" + r)
  {
    var u := "url(/map/" + r;
    assert u[4..][0] == '/';
    SpaceRunIs(u[4..], 0);
    assert MapAt(u, 5);
  }

  /** Text in which no match can begin, in front of text without a match,
      gives text without a match. */
  lemma {:induction false} NoMatchThroughNoU(x: string, r: string)
    requires NoUIn(x) && NoUrlMatch(r)
    ensures NoUrlMatch(x + r)
    decreases |x|
  {
    if |x| > 0 {
      assert (x + r)[0] == x[0] && (x + r)[1..] == x[1..] + r;
      assert NoUIn(x[1..]) by {
        forall j | 0 <= j < |x[1..]| ensures !UrlCanStart(x[1..][j]) { assert x[1..][j] == x[j + 1]; }
      }
      NoMatchThroughNoU(x[1..], r);
    } else {
      assert x + r == r;
    }
  }

  /** The output of a pass holds no match anywhere. */
  lemma {:induction false} UrlPassLeavesNoMatch(t: string)
    ensures NoUrlMatch(UrlPass(t))
    decreases |t|
  {
    if |t| > 0 {
      if UrlMatch(t) {
        UrlPassLeavesNoMatch(t[AfterOpen(t) + 1..]);
        ReplacementClean(UrlPass(t[AfterOpen(t) + 1..]));
      } else {
        UrlFrontKept(t);
        UrlPassLeavesNoMatch(t[1..]);
        assert UrlPass(t)[1..] == UrlPass(t[1..]);
      }
    }
  }

  /** The replacement `url(/map/` in front of text without a match leaves
      text without a match. */
  lemma ReplacementClean(p: string)
    requires NoUrlMatch(p)
    ensures NoUrlMatch("url(/map/" + p)
  {
    var out := "url(/map/" + p;
    ReplacementNoMatch(p);
    assert out[1..] == "rl(/map/" + p;
    NoMatchThroughNoU("rl(/map/", p);
  }

  /** Where nothing matches, a pass changes nothing, and only there. */
  lemma {:induction false} UrlPassFixpoint(t: string)
    ensures UrlPass(t) == t <==> NoUrlMatch(t)
    decreases |t|
  {
    if |t| > 0 {
      UrlPassFixpoint(t[1..]);
      if UrlMatch(t) {
        MatchChanges(t);
      } else {
        UrlPassCopyStep(t);
        ConsAppend(t, []);
        assert UrlPass(t) == t ==> UrlPass(t)[1..] == t[1..];
      }
    }
  }

  /** Text that begins with a match is changed by a pass. */
  lemma MatchChanges(t: string)
    requires UrlMatch(t)
    ensures UrlPass(t) != t
  {
    var out := UrlPass(t);
    assert out[4] == '/' && out[5..9] == "map/";
    if t[4] == '/' {
      SpaceRunIs(t[4..], 0);
    }
  }

  /** A style sheet is left unchanged exactly when it holds no unquoted
      root-absolute `url(` reference outside `/map/`. */
  lemma RewriteCssUrlsUnchanged(css: string)
    ensures RewriteCssUrls(css) == css <==> NoUrlMatch(css)
  {
    UrlPassFixpoint(css);
  }

  /** Rewriting twice is rewriting once. */
  lemma RewriteCssUrlsIdempotent(css: string)
    ensures RewriteCssUrls(RewriteCssUrls(css)) == RewriteCssUrls(css)
  {
    UrlPassLeavesNoMatch(css);
    UrlPassFixpoint(UrlPass(css));
  }

  /** Where `url(`, in any letter case, and white space are followed by
      something else. */
  lemma AfterOpenOf(o: string, ws: string, r: string)
    requires |o| == 4 && UrlOpen(o)
    requires AllSpace(ws) && |r| > 0 && !IsSpace(r[0])
    ensures UrlOpen(o + ws + r) && AfterOpen(o + ws + r) == 4 + |ws|
    ensures (o + ws + r)[4 + |ws|..] == r
  {
    var t := o + ws + r;
    assert t[..4] == o;
    assert t[4..] == ws + r;
    assert forall j :: 0 <= j < |ws| ==> IsSpace(t[4..][j]) by {
      forall j | 0 <= j < |ws| ensures IsSpace(t[4..][j]) { assert t[4..][j] == ws[j]; }
    }
    SpaceRunIs(t[4..], |ws|);
  }

  /** The lookahead read at `m` is the lookahead read at the front of `t[m..]`. */
  lemma MapAtShift(t: string, m: nat)
    requires m <= |t|
    ensures MapAt(t, m) <==> MapAt(t[m..], 0)
  {
  }

  /** A root-absolute reference outside `/map/` is moved under `/map/`: the
      opening `url(`, written in any letter case, comes back as `url(` and
      the white space after it is dropped. */
  lemma {:induction false} RewriteRootReference(o: string, ws: string, r: string)
    requires |o| == 4 && UrlOpen(o)
    requires AllSpace(ws) && !MapAt(r, 0)
    ensures RewriteCssUrls(o + ws + "/" + r) == "url(/map/" + RewriteCssUrls(r)
  {
    var t := o + ws + "/" + r;
    assert t == o + ws + ("/" + r);
    AfterOpenOf(o, ws, "/" + r);
    var k := 4 + |ws|;
    assert t[k + 1..] == r;
    MapAtShift(t, k + 1);
  }

  /** A reference already under `/map/` is kept as written, the letter case
      of `url(` and `map/` and the white space after `url(` included. */
  lemma {:induction false} MappedReferenceKept(o: string, ws: string, m: string, r: string)
    requires |o| == 4 && UrlOpen(o)
    requires AllSpace(ws) && |m| == 4 && MapAt(m, 0)
    ensures RewriteCssUrls(o + ws + "/" + m + r) == o + ws + "/" + m + RewriteCssUrls(r)
  {
    var x := o + ws + "/" + m;
    var t := x + r;
    MappedNoMatch(o, ws, m, r);
    var y := x[1..];
    OpenedTailNoU(o, ws, m);
    assert t[1..] == y + r;
    UrlPassCopies(y, r);
    UrlPassCopyStep(t);
    ConsAppend(x, UrlPass(r));
  }

  /** A reference under `/map/`, in any letter case, does not match at its `url(`. */
  lemma MappedNoMatch(o: string, ws: string, m: string, r: string)
    requires |o| == 4 && UrlOpen(o)
    requires AllSpace(ws) && |m| == 4 && MapAt(m, 0)
    ensures !UrlMatch(o + ws + "/" + m + r)
  {
    var t := o + ws + "/" + m + r;
    assert t == o + ws + ("/" + m + r);
    AfterOpenOf(o, ws, "/" + m + r);
    var k := 4 + |ws|;
    MapAtShift(t, k + 1);
    assert t[k + 1..][..4] == m;
  }

  /** Nothing after the `u` of `url(`, white space and `/map/` can begin a match. */
  lemma OpenedTailNoU(o: string, ws: string, m: string)
    requires |o| == 4 && UrlOpen(o)
    requires AllSpace(ws) && |m| == 4 && MapAt(m, 0)
    ensures NoUIn((o + ws + "/" + m)[1..])
  {
    var y := (o + ws + "/" + m)[1..];
    forall j | 0 <= j < |y| ensures !UrlCanStart(y[j]) {
      if j < 3 { assert y[j] == o[j + 1]; }
      else if j < 3 + |ws| { assert y[j] == ws[j - 3]; }
      else if j > 3 + |ws| { assert y[j] == m[j - 4 - |ws|]; }
    }
  }

  /** A quoted reference, `url("/…")` or `url('/…')` with `url(` in any
      letter case, does not match at its `url(`. */
  lemma QuotedReferenceUntouched(o: string, ws: string, q: char, r: string)
    requires |o| == 4 && UrlOpen(o)
    requires AllSpace(ws) && (q == '"' || q == '\'')
    ensures !UrlMatch(o + ws + [q] + r)
  {
    assert o + ws + [q] + r == o + ws + ([q] + r);
    AfterOpenOf(o, ws, [q] + r);
  }
}
