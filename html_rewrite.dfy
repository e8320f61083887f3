/** The two HTML rewrites that do not look inside `srcset`: injecting
    `<base href="/map/">` after the first `<head…>` tag, and rewriting
    root-absolute `href`, `src` and `action` values. */
module HtmlRewrite {
  import opened Text

  // ---------- injectBaseHref ----------

  const BaseTag: string := "<base href=\"/map/\">"

  /** `<base` (any letter case) followed by white space starts at `i`. */
  predicate BaseAt(html: string, i: nat) {
    i + 5 < |html| && html[i] == '<' && CharCI(html, i + 1, 'b') && CharCI(html, i + 2, 'a')
    && CharCI(html, i + 3, 's') && CharCI(html, i + 4, 'e') && IsSpace(html[i + 5])
  }

  /** The test `/<base\s/i`. */
  predicate HasBaseTag(html: string) {
    exists i: nat :: i < |html| && BaseAt(html, i)
  }

  /** `<head` in any letter case starts at `i`. */
  predicate HeadOpenAt(html: string, i: nat) {
    i + 5 <= |html| && html[i] == '<' && CharCI(html, i + 1, 'h') && CharCI(html, i + 2, 'e')
    && CharCI(html, i + 3, 'a') && CharCI(html, i + 4, 'd')
  }

  /** `/<head([^>]*)>/i` matches at `i`: `<head` in any case and a `>` somewhere after it. */
  predicate HeadMatchAt(html: string, i: nat) {
    HeadOpenAt(html, i) && '>' in html[i + 5..]
  }

  /** The first position at or after `from` where `<head` starts. */
  function FindHeadOpen(html: string, from: nat): (r: Option<nat>)
    requires from <= |html|
    ensures r.Some? ==> from <= r.value < |html| && HeadOpenAt(html, r.value)
    ensures r.Some? ==> forall j: nat :: from <= j < r.value ==> !HeadOpenAt(html, j)
    ensures r.None? ==> forall j: nat :: from <= j <= |html| ==> !HeadOpenAt(html, j)
    decreases |html| - from
  {
    if from == |html| then None
    else if HeadOpenAt(html, from) then Some(from)
    else FindHeadOpen(html, from + 1)
  }

  /** Without a base tag, the first `<head…>` tag is written back as `<head`
      plus its attributes and `>`, followed by the base tag.  A `<head` with no
      `>` anywhere after it is no match, and then neither is any later one. */
  function InjectBaseHref(html: string): string {
    if HasBaseTag(html) then html
    else match FindHeadOpen(html, 0)
      case None => html
      case Some(i) =>
        match IndexOf(html, '>', i + 5)
          case None => html
          case Some(k) => Spliced(html, i, k)
  }

  /** The replacement of the match `html[i..k + 1]`: `<head`, the attributes
      and `>` as written, then the base tag. */
  function Spliced(html: string, i: nat, k: nat): string
    requires i + 5 <= k < |html|
  {
    html[..i] + "<head" + html[i + 5..k + 1] + BaseTag + html[k + 1..]
  }

  /** The spliced text has a base tag right after the `>` of the match. */
  lemma SplicedHasBase(html: string, i: nat, k: nat)
    requires i + 5 <= k < |html|
    ensures BaseAt(Spliced(html, i, k), k + 1) && HasBaseTag(Spliced(html, i, k))
  {
    var r := Spliced(html, i, k);
    var at := k + 1;
    assert r == (html[..i] + "<head" + html[i + 5..k + 1]) + BaseTag + html[k + 1..];
    assert |html[..i] + "<head" + html[i + 5..k + 1]| == at;
    assert r[at..at + |BaseTag|] == BaseTag;
    assert r[at] == '<' && r[at + 1] == 'b' && r[at + 2] == 'a' && r[at + 3] == 's';
    assert r[at + 4] == 'e' && r[at + 5] == ' ';
    assert at < |r| && BaseAt(r, at);
  }

  /** A document that already has a base tag is returned as it is. */
  lemma InjectKeepsExistingBase(html: string)
    requires HasBaseTag(html)
    ensures InjectBaseHref(html) == html
  {
  }

  /** A document where `/<head([^>]*)>/i` matches nowhere is returned as it is. */
  lemma {:induction false} InjectWithoutHead(html: string)
    requires forall i: nat :: i <= |html| ==> !HeadMatchAt(html, i)
    ensures InjectBaseHref(html) == html
  {
    match FindHeadOpen(html, 0)
    case None =>
    case Some(i) =>
      assert !HeadMatchAt(html, i);
      FoundGtIsAfter(html, i + 5);
  }

  /** Otherwise only the leftmost match is touched: the text before it and
      after it is kept, the tag's attributes and `>` are kept verbatim, the
      tag name is written `<head`, and the base tag follows the `>`. */
  lemma {:induction false} InjectAfterFirstHead(html: string, i: nat, k: nat)
    requires !HasBaseTag(html)
    requires HeadMatchAt(html, i) && forall j: nat :: j < i ==> !HeadMatchAt(html, j)
    requires i + 5 <= k < |html| && html[k] == '>' && forall j :: i + 5 <= j < k ==> html[j] != '>'
    ensures InjectBaseHref(html) == Spliced(html, i, k)
  {
    FirstHeadOpen(html, i, k);
    assert IndexOf(html, '>', i + 5) == Some(k);
  }

  /** The leftmost `<head…>` match is also the leftmost `<head`: an earlier
      `<head` would see the same `>` and match. */
  lemma FirstHeadOpen(html: string, i: nat, k: nat)
    requires HeadOpenAt(html, i) && forall j: nat :: j < i ==> !HeadMatchAt(html, j)
    requires i + 5 <= k < |html| && html[k] == '>'
    ensures FindHeadOpen(html, 0) == Some(i)
  {
    var f := FindHeadOpen(html, 0);
    assert f.Some?;
    var v := f.value;
    GtAfter(html, v, k);
    assert v < i ==> !HeadMatchAt(html, v);
  }

  lemma GtAfter(html: string, v: nat, k: nat)
    requires k < |html| && html[k] == '>'
    ensures v + 5 <= k ==> '>' in html[v + 5..]
  {
    if v + 5 <= k {
      assert html[v + 5..][k - v - 5] == '>';
    }
  }

  lemma FoundGtIsAfter(html: string, from: nat)
    requires from <= |html|
    ensures IndexOf(html, '>', from).Some? ==> '>' in html[from..]
  {
    if IndexOf(html, '>', from).Some? {
      var k := IndexOf(html, '>', from).value;
      assert html[from..][k - from] == '>';
    }
  }

  /** After an injection the document has a base tag, so a second pass changes nothing. */
  lemma {:induction false} InjectBaseHrefIdempotent(html: string)
    ensures InjectBaseHref(InjectBaseHref(html)) == InjectBaseHref(html)
  {
    if !HasBaseTag(html) && FindHeadOpen(html, 0).Some? {
      var i := FindHeadOpen(html, 0).value;
      if IndexOf(html, '>', i + 5).Some? {
        SplicedHasBase(html, i, IndexOf(html, '>', i + 5).value);
      }
    }
  }

  // ---------- rewriteRootAbsAttrs ----------

  /** The length of the name of the alternation `href|src|action` that `t`
      begins with (letter case ignored), or 0.  The three names begin with
      different letters, so at most one of them can match at a position. */
  function AttrNameLen(t: string): (n: nat)
    ensures n == 0 || n == 3 || n == 4 || n == 6
    ensures n <= |t| && forall i :: 0 <= i < n ==> IsWordChar(t[i])
  {
    if CharCI(t, 0, 'h') then
      (if CharCI(t, 1, 'r') && CharCI(t, 2, 'e') && CharCI(t, 3, 'f') then 4 else 0)
    else if CharCI(t, 0, 's') then
      (if CharCI(t, 1, 'r') && CharCI(t, 2, 'c') then 3 else 0)
    else if CharCI(t, 0, 'a') then
      (if CharCI(t, 1, 'c') && CharCI(t, 2, 't') && CharCI(t, 3, 'i') && CharCI(t, 4, 'o')
          && CharCI(t, 5, 'n') then 6 else 0)
    else 0
  }

  /** Where a match can begin: at a `\b` in front of `h`, `s` or `a`
      (the names are words, so `\b` there means no word character before). */
  predicate AttrCanStart(prev: bool, c: char) {
    !prev && (LowerChar(c) == 'h' || LowerChar(c) == 's' || LowerChar(c) == 'a')
  }

  /** What follows a name of length `n`: `=`, the quote `q`, `/`, and no `map/` after it. */
  predicate AttrTail(t: string, n: nat, q: char) {
    n + 3 <= |t| && t[n] == '=' && t[n + 1] == q && t[n + 2] == '/' && !MapAt(t, n + 3)
  }

  /** `\b(href|src|action)=(q)\/(?!map\/)` with the `i` flag matches at the
      front of `t`, where `prev` says whether a word character precedes `t`. */
  predicate AttrMatch(prev: bool, t: string, q: char) {
    |t| > 0 && AttrCanStart(prev, t[0]) && AttrNameLen(t) > 0 && AttrTail(t, AttrNameLen(t), q)
  }

  /** One global replace with quote `q`: every match `name=q/` becomes
      `name=qmap/`, keeping the name as written, and scanning resumes after
      the match; everything else is copied. */
  function AttrPass(prev: bool, t: string, q: char): string
    decreases |t|
  {
    if |t| == 0 then []
    else if AttrMatch(prev, t, q) then
      var n := AttrNameLen(t);
      t[..n] + ['=', q] + "map/" + AttrPass(false, t[n + 3..], q)
    else [t[0]] + AttrPass(IsWordChar(t[0]), t[1..], q)
  }

  /** `rewriteRootAbsAttrs`: the double-quote pass, then the single-quote pass. */
  function RewriteRootAbsAttrs(html: string): string {
    AttrPass(false, AttrPass(false, html, '"'), '\'')
  }

  /** No match of the pattern with quote `q` begins anywhere in `t`. */
  predicate NoAttrMatch(prev: bool, t: string, q: char)
    decreases |t|
  {
    |t| == 0 || (!AttrMatch(prev, t, q) && NoAttrMatch(IsWordChar(t[0]), t[1..], q))
  }

  /** No position of `x` can begin a match. */
  predicate NoStartIn(prev: bool, x: string) {
    forall j :: 0 <= j < |x| ==> !AttrCanStart(WordBefore(prev, x, j), x[j])
  }

  /** A pass copies its input's first character. */
  lemma AttrPassHead(prev: bool, t: string, q: char)
    requires |t| > 0
    ensures |AttrPass(prev, t, q)| > 0 && AttrPass(prev, t, q)[0] == t[0]
  {
  }

  /** Where no match can begin, a pass copies the first character. */
  lemma AttrPassCopyStep(prev: bool, t: string, q: char)
    requires |t| > 0 && !AttrCanStart(prev, t[0])
    ensures AttrPass(prev, t, q) == [t[0]] + AttrPass(IsWordChar(t[0]), t[1..], q)
  {
  }

  /** Dropping the first character of text in which no match can begin. */
  lemma NoStartInTail(prev: bool, x: string)
    requires |x| > 0 && NoStartIn(prev, x)
    ensures NoStartIn(IsWordChar(x[0]), x[1..])
    ensures WordAfter(IsWordChar(x[0]), x[1..]) == WordAfter(prev, x)
  {
    forall j | 0 <= j < |x[1..]|
      ensures !AttrCanStart(WordBefore(IsWordChar(x[0]), x[1..], j), x[1..][j])
    {
      assert WordBefore(IsWordChar(x[0]), x[1..], j) == WordBefore(prev, x, j + 1);
      assert x[1..][j] == x[j + 1];
    }
  }

  /** Text in which no match can begin is copied unchanged. */
  lemma {:induction false} AttrPassCopies(prev: bool, x: string, r: string, q: char)
    requires NoStartIn(prev, x)
    ensures AttrPass(prev, x + r, q) == x + AttrPass(WordAfter(prev, x), r, q)
    decreases |x|
  {
    if |x| > 0 {
      var u := x + r;
      assert u[0] == x[0] && u[1..] == x[1..] + r;
      AttrPassCopyStep(prev, u, q);
      NoStartInTail(prev, x);
      AttrPassCopies(IsWordChar(x[0]), x[1..], r, q);
      ConsAppend(x, AttrPass(WordAfter(prev, x), r, q));
    } else {
      assert x + r == r;
    }
  }

  /** Conversely, if a pass's output begins with text in which no match can
      begin, its input began with that same text. */
  lemma {:induction false} AttrPassPrefixBack(prev: bool, t: string, x: string, q: char)
    requires NoStartIn(prev, x)
    requires StartsWith(AttrPass(prev, t, q), x)
    ensures StartsWith(t, x)
    decreases |x|
  {
    if |x| > 0 {
      StartsWithTail(AttrPass(prev, t, q), x);
      AttrPassHead(prev, t, q);
      AttrPassCopyStep(prev, t, q);
      NoStartInTail(prev, x);
      AttrPassPrefixBack(IsWordChar(x[0]), t[1..], x[1..], q);
      StartsWithCons(t, x);
    }
  }

  /** The output of a pass is never shorter than its input, and only as long
      when nothing matched. */
  lemma {:induction false} AttrPassLonger(prev: bool, t: string, q: char)
    ensures |AttrPass(prev, t, q)| >= |t|
    ensures |AttrPass(prev, t, q)| == |t| ==> NoAttrMatch(prev, t, q)
    decreases |t|
  {
    if |t| > 0 {
      if AttrMatch(prev, t, q) {
        AttrPassLonger(false, t[AttrNameLen(t) + 3..], q);
      } else {
        AttrPassLonger(IsWordChar(t[0]), t[1..], q);
      }
    }
  }

  /** A pass changes nothing exactly when its pattern matches nowhere. */
  lemma {:induction false} AttrPassFixpoint(prev: bool, t: string, q: char)
    ensures AttrPass(prev, t, q) == t <==> NoAttrMatch(prev, t, q)
    decreases |t|
  {
    if |t| > 0 {
      if AttrMatch(prev, t, q) {
        AttrPassLonger(false, t[AttrNameLen(t) + 3..], q);
        assert |AttrPass(prev, t, q)| > |t|;
      } else {
        AttrPassFixpoint(IsWordChar(t[0]), t[1..], q);
        assert t == [t[0]] + t[1..];
      }
    }
  }

  /** Text with no match after `x`, and none inside `x` because no match can
      begin there, has no match at all. */
  lemma {:induction false} NoMatchThroughNoStart(prev: bool, x: string, r: string, q: char)
    requires NoStartIn(prev, x)
    requires NoAttrMatch(WordAfter(prev, x), r, q)
    ensures NoAttrMatch(prev, x + r, q)
    decreases |x|
  {
    if |x| > 0 {
      var u := x + r;
      assert u[0] == x[0] && u[1..] == x[1..] + r;
      AttrPassCopyStep(prev, u, q);
      NoStartInTail(prev, x);
      NoMatchThroughNoStart(IsWordChar(x[0]), x[1..], r, q);
    } else {
      assert x + r == r;
    }
  }

  /** No match anywhere means no match in any suffix. */
  lemma {:induction false} NoAttrMatchSuffix(prev: bool, t: string, q: char, k: nat)
    requires k <= |t| && NoAttrMatch(prev, t, q)
    ensures NoAttrMatch(WordBefore(prev, t, k), t[k..], q)
    decreases k
  {
    if k > 0 {
      NoAttrMatchSuffix(IsWordChar(t[0]), t[1..], q, k - 1);
      assert t[1..][k - 1..] == t[k..];
      assert WordBefore(IsWordChar(t[0]), t[1..], k - 1) == WordBefore(prev, t, k);
    }
  }

  /** A pass keeps a leading `map/` (in any case): none of its characters can begin a match. */
  lemma MapAheadKept(rest: string, qs: char)
    requires MapAt(rest, 0)
    ensures MapAt(AttrPass(false, rest, qs), 0)
  {
    var m := rest[..4];
    assert rest == m + rest[4..];
    assert NoStartIn(false, m) by {
      forall j | 0 <= j < 4 ensures !AttrCanStart(WordBefore(false, m, j), m[j]) {
        assert m[j] == rest[j];
        if j == 1 { assert IsWordChar(m[0]); }
      }
    }
    AttrPassCopies(false, m, rest[4..], qs);
    var out := AttrPass(false, rest, qs);
    assert out[..4] == m;
    assert out[0] == m[0] && out[1] == m[1] && out[2] == m[2] && out[3] == m[3];
  }

  /** The characters `=`, a quote and `/` begin no match, whatever precedes them. */
  lemma PunctuationNoStart(x: string, n: nat, qp: char)
    requires n >= 1 && |x| == n + 2 && (qp == '"' || qp == '\'')
    requires forall i :: 0 <= i < n - 1 ==> IsWordChar(x[i])
    requires x[n - 1] == '=' && x[n] == qp && x[n + 1] == '/'
    ensures NoStartIn(true, x)
  {
    forall j | 0 <= j < |x| ensures !AttrCanStart(WordBefore(true, x, j), x[j]) {
      if 0 < j < n - 1 {
        assert IsWordChar(x[j - 1]);
      }
    }
  }

  /** If the output of a pass that follows a word character begins with
      `n - 1` word characters, `=`, a quote and `/`, the pass copied those
      characters from its input. */
  lemma {:induction false} AttrPassBackPattern(t1: string, qs: char, qp: char, n: nat)
    requires n >= 1 && (qp == '"' || qp == '\'')
    requires n + 2 <= |AttrPass(true, t1, qs)|
    requires forall i :: 0 <= i < n - 1 ==> IsWordChar(AttrPass(true, t1, qs)[i])
    requires AttrPass(true, t1, qs)[n - 1] == '='
    requires AttrPass(true, t1, qs)[n] == qp && AttrPass(true, t1, qs)[n + 1] == '/'
    ensures n + 2 <= |t1| && t1[..n + 2] == AttrPass(true, t1, qs)[..n + 2]
    ensures AttrPass(true, t1, qs)[n + 2..] == AttrPass(false, t1[n + 2..], qs)
  {
    var a := AttrPass(true, t1, qs);
    var x := a[..n + 2];
    PunctuationNoStart(x, n, qp);
    AttrPassPrefixBack(true, t1, x, qs);
    assert t1 == x + t1[n + 2..];
    AttrPassCopies(true, x, t1[n + 2..], qs);
  }

  /** Where a pass copies the first character, a match for quote `qp` at the
      front of its output was already a match at the front of its input: the
      characters such a match reads cannot begin a match of the pass. */
  lemma {:induction false} AttrFrontKept(prev: bool, t: string, qp: char, qs: char)
    requires |t| > 0 && (qp == '"' || qp == '\'')
    requires !AttrMatch(prev, t, qp)
    ensures !AttrMatch(prev, [t[0]] + AttrPass(IsWordChar(t[0]), t[1..], qs), qp)
  {
    var out := [t[0]] + AttrPass(IsWordChar(t[0]), t[1..], qs);
    if AttrMatch(prev, out, qp) {
      var n := AttrNameLen(out);
      var a := AttrPass(true, t[1..], qs);
      assert IsWordChar(out[0]) && out[1..] == a;
      assert forall i :: 0 <= i < n - 1 ==> IsWordChar(a[i]) by {
        forall i | 0 <= i < n - 1 ensures IsWordChar(a[i]) { assert a[i] == out[i + 1]; }
      }
      AttrPassBackPattern(t[1..], qs, qp, n);
      SamePrefix(t, out, n + 3);
      MapAheadKeptAt(t, out, n + 3, qs);
    }
  }

  /** `t` and `out` agree on their first `m` characters. */
  lemma SamePrefix(t: string, out: string, m: nat)
    requires 0 < m <= |t| && m <= |out| && t[0] == out[0] && t[1..][..m - 1] == out[1..][..m - 1]
    ensures forall i :: 0 <= i < m ==> t[i] == out[i]
  {
    forall i | 0 < i < m ensures t[i] == out[i] {
      assert t[i] == t[1..][..m - 1][i - 1] && out[i] == out[1..][..m - 1][i - 1];
    }
  }

  lemma MapAheadKeptAt(t: string, out: string, m: nat, qs: char)
    requires m <= |t| && m <= |out| && out[m..] == AttrPass(false, t[m..], qs)
    ensures MapAt(t, m) ==> MapAt(out, m)
  {
    if MapAt(t, m) {
      assert MapAt(t[m..], 0);
      MapAheadKept(t[m..], qs);
    }
  }

  /** What a match is replaced by cannot hold the beginning of another match
      after its first character, and its first character begins none. */
  lemma ReplacementClean(prev: bool, name: string, q: char, qp: char, r: string)
    requires |name| >= 3 && forall i :: 0 <= i < |name| ==> IsWordChar(name[i])
    requires q == '"' || q == '\''
    ensures !AttrMatch(prev, name + ['=', q] + "map/" + r, qp)
    ensures NoStartIn(true, name[1..] + ['=', q] + "map/")
    ensures WordAfter(true, name[1..] + ['=', q] + "map/") == false
  {
    var x := name[1..] + ['=', q] + "map/";
    var u := name + ['=', q] + "map/" + r;
    forall j | 0 <= j < |x| ensures !AttrCanStart(WordBefore(true, x, j), x[j]) {
      if 0 < j < |name| {
        assert x[j - 1] == name[j];
      }
    }
  }

  /** After a pass for quote `q`, the pattern for `q` matches nowhere, and the
      pattern for the other quote matches nowhere if it matched nowhere before. */
  lemma {:induction false} AttrPassLeavesNoMatch(prev: bool, t: string, q: char, qp: char)
    requires q == '"' || q == '\''
    requires qp == '"' || qp == '\''
    requires qp == q || NoAttrMatch(prev, t, qp)
    ensures NoAttrMatch(prev, AttrPass(prev, t, q), qp)
    decreases |t|, 1
  {
    if |t| > 0 {
      if AttrMatch(prev, t, q) {
        LeavesNoMatchAtMatch(prev, t, q, qp);
      } else {
        LeavesNoMatchElsewhere(prev, t, q, qp);
      }
    }
  }

  /** The step of the proof above where the pass rewrites a match at the front. */
  lemma {:induction false} LeavesNoMatchAtMatch(prev: bool, t: string, q: char, qp: char)
    requires q == '"' || q == '\''
    requires qp == '"' || qp == '\''
    requires qp == q || NoAttrMatch(prev, t, qp)
    requires AttrMatch(prev, t, q)
    ensures NoAttrMatch(prev, AttrPass(prev, t, q), qp)
    decreases |t|, 0
  {
    var n := AttrNameLen(t);
    var w := t[..n];
    var rest := t[n + 3..];
    if qp != q {
      NoAttrMatchSuffix(prev, t, qp, n + 3);
      assert WordBefore(prev, t, n + 3) == false;
    }
    AttrPassLeavesNoMatch(false, rest, q, qp);
    var tail := AttrPass(false, rest, q);
    var x := w[1..] + ['=', q] + "map/";
    ReplacementClean(prev, w, q, qp, tail);
    var u := w + ['=', q] + "map/" + tail;
    assert AttrPass(prev, t, q) == u;
    assert u[0] == w[0] && u[1..] == x + tail;
    NoMatchThroughNoStart(true, x, tail, qp);
    assert IsWordChar(u[0]);
  }

  /** The step of the proof above where the pass copies the front character. */
  lemma {:induction false} LeavesNoMatchElsewhere(prev: bool, t: string, q: char, qp: char)
    requires q == '"' || q == '\''
    requires qp == '"' || qp == '\''
    requires qp == q || NoAttrMatch(prev, t, qp)
    requires |t| > 0 && !AttrMatch(prev, t, q)
    ensures NoAttrMatch(prev, AttrPass(prev, t, q), qp)
    decreases |t|, 0
  {
    var out := AttrPass(prev, t, q);
    assert out == [t[0]] + AttrPass(IsWordChar(t[0]), t[1..], q);
    AttrFrontKept(prev, t, qp, q);
    AttrPassLeavesNoMatch(IsWordChar(t[0]), t[1..], q, qp);
    assert out[1..] == AttrPass(IsWordChar(t[0]), t[1..], q);
  }

  /** `rewriteRootAbsAttrs` is idempotent: a second application changes nothing. */
  lemma RewriteRootAbsAttrsIdempotent(html: string)
    ensures RewriteRootAbsAttrs(RewriteRootAbsAttrs(html)) == RewriteRootAbsAttrs(html)
  {
    var u := AttrPass(false, html, '"');
    var v := AttrPass(false, u, '\'');
    AttrPassLeavesNoMatch(false, html, '"', '"');
    AttrPassLeavesNoMatch(false, u, '\'', '"');
    AttrPassFixpoint(false, v, '"');
    AttrPassLeavesNoMatch(false, u, '\'', '\'');
    AttrPassFixpoint(false, v, '\'');
  }

  /** `rewriteRootAbsAttrs` leaves a document alone exactly when neither
      pattern matches anywhere in it. */
  lemma RewriteRootAbsAttrsUnchanged(html: string)
    ensures RewriteRootAbsAttrs(html) == html <==> NoAttrMatch(false, html, '"') && NoAttrMatch(false, html, '\'')
  {
    var u := AttrPass(false, html, '"');
    AttrPassFixpoint(false, html, '"');
    AttrPassFixpoint(false, u, '\'');
    AttrPassLonger(false, html, '"');
    AttrPassLonger(false, u, '\'');
  }

  /** One of the names `href`, `src` and `action`, in any letter case. */
  predicate AttrName(name: string) {
    (|name| == 4 && CharCI(name, 0, 'h') && CharCI(name, 1, 'r') && CharCI(name, 2, 'e') && CharCI(name, 3, 'f'))
    || (|name| == 3 && CharCI(name, 0, 's') && CharCI(name, 1, 'r') && CharCI(name, 2, 'c'))
    || (|name| == 6 && CharCI(name, 0, 'a') && CharCI(name, 1, 'c') && CharCI(name, 2, 't')
        && CharCI(name, 3, 'i') && CharCI(name, 4, 'o') && CharCI(name, 5, 'n'))
  }

  /** A name of the alternation has the length `AttrNameLen` reads, consists
      of word characters and cannot follow a word character. */
  lemma AttrNameOf(name: string, t: string)
    requires AttrName(name)
    requires StartsWith(t, name) && |t| > |name| && t[|name|] == '='
    ensures AttrNameLen(t) == |name| && AttrCanStart(false, t[0])
    ensures forall i :: 0 <= i < |name| ==> IsWordChar(name[i])
  {
    assert t[..|name|] == name;
    assert forall i :: 0 <= i < |name| ==> t[i] == name[i];
  }

  /** A root-absolute value outside `/map/` loses its leading `/` to `map/`:
      `href="/x"` becomes `href="map/x"`, and `HREF="/x"` becomes
      `HREF="map/x"`, the name kept as written; scanning goes on after it. */
  lemma RootValueRewritten(name: string, q: char, r: string)
    requires AttrName(name)
    requires !MapAt(r, 0)
    ensures AttrPass(false, name + ['=', q] + "/" + r, q) == name + ['=', q] + "map/" + AttrPass(false, r, q)
  {
    var t := name + ['=', q] + "/" + r;
    var n := |name|;
    assert t[..n] == name;
    AttrNameOf(name, t);
    assert t[n + 3..] == r;
    assert MapAt(t, n + 3) == MapAt(r, 0);
    assert AttrMatch(false, t, q);
  }

  /** A value already under `/map/` (in any letter case) is kept as written,
      whatever the letter case of the name. */
  lemma MappedValueKept(name: string, q: char, m: string, r: string)
    requires AttrName(name)
    requires q == '"' || q == '\''
    requires |m| == 4 && MapAt(m, 0)
    ensures AttrPass(false, name + ['=', q] + "/" + m + r, q) == name + ['=', q] + "/" + m + AttrPass(false, r, q)
  {
    var x := name + ['=', q] + "/" + m;
    var t := x + r;
    var n := |name|;
    assert t[..n] == name;
    AttrNameOf(name, t);
    assert t[n + 3..n + 7] == m;
    assert !AttrMatch(false, t, q);
    MappedTailNoStart(name, q, m);
    assert t[1..] == x[1..] + r;
    AttrPassCopies(true, x[1..], r, q);
    ConsAppend(x, AttrPass(false, r, q));
  }

  /** After the first letter of the name, nothing up to the end of `/map/`
      can begin a match. */
  lemma MappedTailNoStart(name: string, q: char, m: string)
    requires AttrName(name)
    requires q == '"' || q == '\''
    requires |m| == 4 && MapAt(m, 0)
    ensures NoStartIn(true, (name + ['=', q] + "/" + m)[1..])
  {
    var x := name + ['=', q] + "/" + m;
    var n := |name|;
    assert forall i :: 0 <= i < n ==> IsWordChar(name[i]);
    var y := x[1..];
    forall j | 0 <= j < |y| ensures !AttrCanStart(WordBefore(true, y, j), y[j]) {
      if j < n - 1 { assert y[j] == name[j + 1]; }
      else if j < n + 2 { assert y[j] == x[j + 1]; }
      else { assert y[j] == m[j - n - 2]; assert j - 1 == n + 1 || y[j - 1] == m[j - n - 3]; }
    }
  }
}
