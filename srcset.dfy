/** `rewriteSrcset`: every quoted `srcset` value is split on commas, each
    candidate is trimmed and, when its URL is root-absolute and not yet under
    `/map/`, prefixed with `/map`; the candidates are joined again with `", "`. */
module Srcset {
  import opened Text

  // ---------- one candidate ----------

  /** The first whitespace-separated word of `s`. */
  function FirstWord(s: string): (w: string)
    ensures NoSpace(w)
  {
    s[..NonSpaceRun(s)]
  }

  /** What follows the first word and the white space after it. */
  function AfterFirstWord(s: string): string {
    var rest := s[NonSpaceRun(s)..];
    rest[SpaceRun(rest)..]
  }

  /** The second whitespace-separated word of `s`, empty when there is none. */
  function SecondWord(s: string): (w: string)
    ensures NoSpace(w)
  {
    FirstWord(AfterFirstWord(s))
  }

  /** A URL that the rewrite moves under `/map`: root-absolute and not already
      starting with `/map/` (both tests are case-sensitive). */
  predicate NeedsMapPrefix(url: string) {
    StartsWith(url, "/") && !StartsWith(url, "/map/")
  }

  /** A candidate written out: the URL, then a space and the descriptor when
      there is one. */
  function Candidate(url: string, desc: string): string {
    url + (if desc != "" then " " + desc else "")
  }

  /** The callback applied to one comma-separated part.  For the trimmed part,
      `split(/\s+/, 2)` yields the URL and the descriptor (the second word, if
      any); a URL to move becomes `/map` + URL, followed by a space and the
      descriptor when there is one; any other part is kept as its trimmed text. */
  function RewriteEntry(part: string): (r: string)
  {
    var s := Trim(part);
    var url := FirstWord(s);
    if NeedsMapPrefix(url) then Candidate("/map" + url, SecondWord(s)) else s
  }

  predicate NoSpace(w: string) {
    forall i :: 0 <= i < |w| ==> !IsSpace(w[i])
  }

  /** The length of the first word is fixed by where white space first appears. */
  lemma NonSpaceRunAt(t: string, n: nat)
    requires n <= |t| && forall i :: 0 <= i < n ==> !IsSpace(t[i])
    requires n < |t| ==> IsSpace(t[n])
    ensures NonSpaceRun(t) == n
  {
  }

  /** A word on its own reads back as that word, with no second word. */
  lemma SingleWord(w: string)
    requires NoSpace(w)
    ensures FirstWord(w) == w && SecondWord(w) == ""
  {
    NonSpaceRunAt(w, |w|);
    assert w[..|w|] == w;
    assert AfterFirstWord(w) == "";
  }

  /** A written-out candidate reads back as its URL and its descriptor, and
      has no white space around it. */
  lemma {:induction false} CandidateWords(w: string, d: string)
    requires |w| > 0 && NoSpace(w) && NoSpace(d)
    ensures FirstWord(Candidate(w, d)) == w && SecondWord(Candidate(w, d)) == d
    ensures IsTrimmed(Candidate(w, d))
  {
    var r := Candidate(w, d);
    if d == "" {
      assert r == w;
      SingleWord(w);
    } else {
      var tail := " " + d;
      assert r == w + tail;
      assert forall i :: 0 <= i < |w| ==> !IsSpace(r[i]) by {
        forall i | 0 <= i < |w| ensures !IsSpace(r[i]) { assert r[i] == w[i]; }
      }
      assert r[|w|] == ' ';
      NonSpaceRunAt(r, |w|);
      assert r[..|w|] == w;
      assert r[|w|..] == tail;
      assert tail[1..] == d;
      assert SpaceRun(tail) == 1;
      SingleWord(d);
    }
  }

  /** A candidate that was moved under `/map` reads back as the URL with the
      prefix and the same descriptor; a candidate that was not moved is its
      trimmed text. */
  lemma {:induction false} RewriteEntryWords(part: string)
    ensures var s := Trim(part);
      if NeedsMapPrefix(FirstWord(s)) then
        FirstWord(RewriteEntry(part)) == "/map" + FirstWord(s)
        && SecondWord(RewriteEntry(part)) == SecondWord(s)
        && StartsWith(FirstWord(RewriteEntry(part)), "/map/")
      else RewriteEntry(part) == s
    ensures IsTrimmed(RewriteEntry(part))
  {
    var s := Trim(part);
    var url := FirstWord(s);
    if NeedsMapPrefix(url) {
      MapHead(url);
      CandidateWords("/map" + url, SecondWord(s));
    }
  }

  /** `/map` in front of a root-absolute word is a word under `/map/`. */
  lemma MapHead(url: string)
    requires NoSpace(url) && StartsWith(url, "/")
    ensures NoSpace("/map" + url) && StartsWith("/map" + url, "/map/")
  {
    var head := "/map" + url;
    forall i | 0 <= i < |head| ensures !IsSpace(head[i]) {
      if i >= 4 { assert head[i] == url[i - 4]; }
    }
    assert head[..5] == "/map" + url[..1];
  }

  /** Rewriting a candidate twice is rewriting it once: a moved URL starts
      with `/map/`, and a kept candidate is already trimmed. */
  lemma {:induction false} RewriteEntryIdempotent(part: string)
    ensures RewriteEntry(RewriteEntry(part)) == RewriteEntry(part)
  {
    var r := RewriteEntry(part);
    RewriteEntryWords(part);
    TrimOfTrimmed(r);
  }
  /** The rewrite writes no character of its own other than those of `/map` and a space. */
  lemma {:induction false} RewriteEntryChars(part: string, c: char)
    requires c !in part && c != ' ' && c !in "/map"
    ensures c !in RewriteEntry(part)
  {
    var s := Trim(part);
    assert c !in s;
    var url := FirstWord(s);
    assert c !in url;
    var rest := s[NonSpaceRun(s)..];
    assert c !in rest;
    assert c !in AfterFirstWord(s);
    assert c !in SecondWord(s);
  }

  // ---------- one attribute value ----------

  /** The `.map` over the comma-separated parts. */
  function RewriteAll(parts: seq<string>): (r: seq<string>)
    ensures |r| == |parts|
  {
    if parts == [] then [] else [RewriteEntry(parts[0])] + RewriteAll(parts[1..])
  }

  lemma {:induction false} RewriteAllAt(parts: seq<string>, i: nat)
    requires i < |parts|
    ensures RewriteAll(parts)[i] == RewriteEntry(parts[i])
    decreases i
  {
    if i > 0 {
      RewriteAllAt(parts[1..], i - 1);
    }
  }

  /** The callback's value for the list between the quotes: the parts split
      on `,`, rewritten one by one and joined with `", "`. */
  function RewriteList(list: string): string {
    Join(RewriteAll(Split(list, ',')), ", ")
  }

  /** The rewritten value holds as many candidates as the original, in the same
      order: the first comma-separated part of the result is the first part
      of the original rewritten, every later one is a space (the rest of the
      `", "` separator) and the rewritten original part, and so each part,
      trimmed, is the original part rewritten. */
  lemma {:induction false} RewriteListEntries(list: string)
    ensures |Split(RewriteList(list), ',')| == |Split(list, ',')|
    ensures Split(RewriteList(list), ',')[0] == RewriteEntry(Split(list, ',')[0])
    ensures forall i :: 1 <= i < |Split(list, ',')| ==>
      Split(RewriteList(list), ',')[i] == " " + RewriteEntry(Split(list, ',')[i])
    ensures forall i :: 0 <= i < |Split(list, ',')| ==>
      Trim(Split(RewriteList(list), ',')[i]) == RewriteEntry(Split(list, ',')[i])
  {
    var ps := Split(list, ',');
    var ys := RewriteAll(ps);
    RewrittenLackComma(ps);
    SplitJoined(ys, ',');
    forall i | 0 <= i < |ps| ensures ys[i] == RewriteEntry(ps[i]) { RewriteAllAt(ps, i); }
    TrimRewritten(ps, Split(RewriteList(list), ','));
  }

  lemma RewrittenLackComma(ps: seq<string>)
    requires forall i :: 0 <= i < |ps| ==> ',' !in ps[i]
    ensures forall i :: 0 <= i < |RewriteAll(ps)| ==> ',' !in RewriteAll(ps)[i]
  {
    forall i | 0 <= i < |ps| ensures ',' !in RewriteAll(ps)[i] {
      RewriteAllAt(ps, i);
      RewriteEntryChars(ps[i], ',');
    }
  }

  /** Pieces that are the rewritten parts, perhaps after a space, trim to the rewritten parts. */
  lemma TrimRewritten(ps: seq<string>, qs: seq<string>)
    requires |qs| == |ps| >= 1 && qs[0] == RewriteAll(ps)[0]
    requires forall i :: 1 <= i < |ps| ==> qs[i] == [' '] + RewriteAll(ps)[i]
    ensures forall i :: 0 <= i < |ps| ==> Trim(qs[i]) == RewriteEntry(ps[i])
  {
    forall i | 0 <= i < |ps| ensures Trim(qs[i]) == RewriteEntry(ps[i]) {
      RewriteAllAt(ps, i);
      var y := RewriteEntry(ps[i]);
      RewriteEntryWords(ps[i]);
      TrimOfTrimmed(y);
      if i > 0 { TrimSpaceInFront(y); }
    }
  }

  /** Rewriting a value twice is rewriting it once. */
  lemma {:induction false} RewriteListIdempotent(list: string)
    ensures RewriteList(RewriteList(list)) == RewriteList(list)
  {
    var ps := Split(list, ',');
    var ys := RewriteAll(ps);
    var qs := Split(RewriteList(list), ',');
    RewriteListEntries(list);
    var zs := RewriteAll(qs);
    forall i | 0 <= i < |zs| ensures zs[i] == ys[i] {
      RewriteAllAt(ps, i);
      RewriteAllAt(qs, i);
      RewriteEntryIdempotent(ps[i]);
      TrimOfTrimmed(ys[i]);
      assert RewriteEntry(qs[i]) == RewriteEntry(ys[i]) by {
        assert Trim(qs[i]) == Trim(ys[i]);
      }
    }
    assert zs == ys;
  }
  /** Neither quote character occurs in `s`. */
  predicate QuoteFree(s: string) {
    '"' !in s && '\'' !in s
  }

  /** A value without quotes is rewritten into one without quotes. */
  lemma RewriteListQuoteFree(list: string)
    requires QuoteFree(list)
    ensures QuoteFree(RewriteList(list))
  {
    var ps := Split(list, ',');
    var ys := RewriteAll(ps);
    forall i | 0 <= i < |ys| ensures QuoteFree(ys[i]) {
      RewriteAllAt(ps, i);
      JoinedPieceLacks(ps, [','], '"', i);
      JoinedPieceLacks(ps, [','], '\'', i);
      RewriteEntryChars(ps[i], '"');
      RewriteEntryChars(ps[i], '\'');
    }
    JoinLacks(ys, ", ", '"');
    JoinLacks(ys, ", ", '\'');
  }

  // ---------- the global replace ----------

  predicate IsQuote(c: char) {
    c == '"' || c == '\''
  }

  /** The first position at or after `from` that holds a quote. */
  function QuoteFrom(t: string, from: nat): (r: Option<nat>)
    requires from <= |t|
    ensures r.Some? ==> from <= r.value < |t| && IsQuote(t[r.value])
    ensures r.Some? ==> forall j :: from <= j < r.value ==> !IsQuote(t[j])
    ensures r.None? ==> forall j :: from <= j < |t| ==> !IsQuote(t[j])
    decreases |t| - from
  {
    if from == |t| then None
    else if IsQuote(t[from]) then Some(from)
    else QuoteFrom(t, from + 1)
  }

  /** Where a match can begin: an `s` (any case) with no word character before it. */
  predicate SStart(prev: bool, c: char) {
    !prev && LowerChar(c) == 's'
  }

  /** Where a match of `srcset=(["'])([^"']+)\1` (letter case ignored) that
      begins at the front of `t` ends: `srcset=`, a quote, then at least one
      character up to the first quote, which must be the same quote.  The
      greedy `[^"']+` cannot step over a quote, so there is no other way to match. */
  function SrcsetEnd(t: string): (r: Option<nat>)
    ensures r.Some? ==> 8 < r.value < |t| && IsQuote(t[7]) && t[r.value] == t[7]
    ensures r.Some? ==> forall j :: 8 <= j < r.value ==> !IsQuote(t[j])
  {
    if 8 <= |t| && CharCI(t, 0, 's') && CharCI(t, 1, 'r') && CharCI(t, 2, 'c') && CharCI(t, 3, 's')
       && CharCI(t, 4, 'e') && CharCI(t, 5, 't') && t[6] == '=' && IsQuote(t[7])
    then
      match QuoteFrom(t, 8)
        case Some(k) => if k > 8 && t[k] == t[7] then Some(k) else None
        case None => None
    else None
  }

  /** `\bsrcset=…` matches at the front of `t`, where `prev` says whether a
      word character precedes `t`. */
  predicate SrcsetMatch(prev: bool, t: string) {
    |t| > 0 && SStart(prev, t[0]) && SrcsetEnd(t).Some?
  }

  /** The global replace with callback `f` for the value between the quotes:
      each match becomes `srcset=`, the quote, `f` of the value and the quote
      again; scanning resumes after the closing quote; everything else is copied. */
  function SrcsetPass(prev: bool, t: string, f: string -> string): string
    decreases |t|
  {
    if |t| == 0 then []
    else if SrcsetMatch(prev, t) then
      var k := SrcsetEnd(t).value;
      "srcset=" + [t[7]] + f(t[8..k]) + [t[7]] + SrcsetPass(false, t[k + 1..], f)
    else [t[0]] + SrcsetPass(IsWordChar(t[0]), t[1..], f)
  }

  /** `rewriteSrcset`. */
  function RewriteSrcset(html: string): string {
    SrcsetPass(false, html, RewriteList)
  }

  /** No match begins anywhere in `t`. */
  predicate NoSrcsetMatch(prev: bool, t: string)
    decreases |t|
  {
    |t| == 0 || (!SrcsetMatch(prev, t) && NoSrcsetMatch(IsWordChar(t[0]), t[1..]))
  }

  /** Text in which the pattern matches nowhere is returned as it is. */
  lemma {:induction false} SrcsetUnchangedWithoutMatch(prev: bool, t: string, f: string -> string)
    requires NoSrcsetMatch(prev, t)
    ensures SrcsetPass(prev, t, f) == t
    decreases |t|
  {
    if |t| > 0 {
      SrcsetUnchangedWithoutMatch(IsWordChar(t[0]), t[1..], f);
      assert [t[0]] + t[1..] == t;
    }
  }

  /** No position of `x` can begin a match. */
  predicate NoSStartIn(prev: bool, x: string) {
    forall j :: 0 <= j < |x| ==> !SStart(WordBefore(prev, x, j), x[j])
  }

  lemma NoSStartInTail(prev: bool, x: string)
    requires |x| > 0 && NoSStartIn(prev, x)
    ensures NoSStartIn(IsWordChar(x[0]), x[1..])
    ensures WordAfter(IsWordChar(x[0]), x[1..]) == WordAfter(prev, x)
  {
    forall j | 0 <= j < |x[1..]|
      ensures !SStart(WordBefore(IsWordChar(x[0]), x[1..], j), x[1..][j])
    {
      assert WordBefore(IsWordChar(x[0]), x[1..], j) == WordBefore(prev, x, j + 1);
      assert x[1..][j] == x[j + 1];
    }
  }

  /** Where no match can begin, a pass copies the first character. */
  lemma SrcsetCopyStep(prev: bool, t: string, f: string -> string)
    requires |t| > 0 && !SStart(prev, t[0])
    ensures SrcsetPass(prev, t, f) == [t[0]] + SrcsetPass(IsWordChar(t[0]), t[1..], f)
  {
  }

  /** Text in which no match can begin is copied unchanged. */
  lemma {:induction false} SrcsetCopies(prev: bool, x: string, r: string, f: string -> string)
    requires NoSStartIn(prev, x)
    ensures SrcsetPass(prev, x + r, f) == x + SrcsetPass(WordAfter(prev, x), r, f)
    decreases |x|
  {
    if |x| > 0 {
      var u := x + r;
      assert u[0] == x[0] && u[1..] == x[1..] + r;
      SrcsetCopyStep(prev, u, f);
      NoSStartInTail(prev, x);
      SrcsetCopies(IsWordChar(x[0]), x[1..], r, f);
      ConsAppend(x, SrcsetPass(WordAfter(prev, x), r, f));
    } else {
      assert x + r == r;
    }
  }

  /** A rewritten match starts with `srcset=` and the match's opening quote. */
  lemma MatchOutputHead(prev: bool, t: string, f: string -> string)
    requires SrcsetMatch(prev, t)
    ensures |SrcsetPass(prev, t, f)| > 8 && SrcsetPass(prev, t, f)[..7] == "srcset="
    ensures SrcsetPass(prev, t, f)[7] == t[7]
  {
    var k := SrcsetEnd(t).value;
    var r := SrcsetPass(prev, t, f);
    assert r == "srcset=" + [t[7]] + f(t[8..k]) + [t[7]] + SrcsetPass(false, t[k + 1..], f);
  }

  /** A pass copies its input's first character, or writes the `s` of a
      rewritten match. */
  lemma SrcsetPassHead(prev: bool, t: string, f: string -> string)
    requires |t| > 0
    ensures |SrcsetPass(prev, t, f)| > 0
    ensures !SrcsetMatch(prev, t) ==> SrcsetPass(prev, t, f)[0] == t[0]
    ensures SrcsetMatch(prev, t) ==> SStart(prev, SrcsetPass(prev, t, f)[0])
  {
    if SrcsetMatch(prev, t) {
      MatchOutputHead(prev, t, f);
    }
  }

  /** If a pass's output begins with text in which no match can begin, its
      input began with that same text. */
  lemma {:induction false} SrcsetPrefixBack(prev: bool, t: string, x: string, f: string -> string)
    requires NoSStartIn(prev, x)
    requires StartsWith(SrcsetPass(prev, t, f), x)
    ensures StartsWith(t, x)
    decreases |x|
  {
    if |x| > 0 {
      StartsWithTail(SrcsetPass(prev, t, f), x);
      SrcsetPassHead(prev, t, f);
      assert t[0] == x[0];
      SrcsetCopyStep(prev, t, f);
      NoSStartInTail(prev, x);
      SrcsetPrefixBack(IsWordChar(x[0]), t[1..], x[1..], f);
      StartsWithCons(t, x);
    }
  }

  /** The first quote of a pass's output is the first quote of its input, at
      the same position: a rewritten match starts with `srcset=` and its
      opening quote, which was already there. */
  lemma {:induction false} FirstQuoteKept(prev: bool, u: string, m: nat, f: string -> string)
    requires m < |SrcsetPass(prev, u, f)| && IsQuote(SrcsetPass(prev, u, f)[m])
    requires forall j :: 0 <= j < m ==> !IsQuote(SrcsetPass(prev, u, f)[j])
    ensures m < |u| && u[m] == SrcsetPass(prev, u, f)[m]
    ensures forall j :: 0 <= j < m ==> !IsQuote(u[j])
    decreases |u|
  {
    var out := SrcsetPass(prev, u, f);
    if SrcsetMatch(prev, u) {
      MatchOutputHead(prev, u, f);
      assert !IsQuote(out[0]) && !IsQuote(out[1]) && !IsQuote(out[2]) && !IsQuote(out[3]);
      assert !IsQuote(out[4]) && !IsQuote(out[5]) && !IsQuote(out[6]);
      assert m == 7;
    } else {
      if m > 0 {
        assert out[1..] == SrcsetPass(IsWordChar(u[0]), u[1..], f);
        FirstQuoteKept(IsWordChar(u[0]), u[1..], m - 1, f);
        assert !IsQuote(out[0]);
      }
    }
  }
  /** Where the first quote at or after `from` is. */
  lemma QuoteFromIs(t: string, from: nat, k: nat)
    requires from <= k < |t| && IsQuote(t[k]) && forall j :: from <= j < k ==> !IsQuote(t[j])
    ensures QuoteFrom(t, from) == Some(k)
  {
  }

  /** `rcset=` and quotes begin no match after a word character. */
  lemma HeaderTailNoStart(x: string)
    requires |x| >= 7 && CharCI(x, 0, 'r') && CharCI(x, 1, 'c') && CharCI(x, 2, 's')
    requires CharCI(x, 3, 'e') && CharCI(x, 4, 't') && x[5] == '='
    requires forall j :: 6 <= j < |x| ==> IsQuote(x[j])
    ensures NoSStartIn(true, x) && WordAfter(true, x) == false
  {
    assert IsWordChar(x[0]) && IsWordChar(x[1]);
  }

  /** If the output of a pass that follows a word character begins with
      `rcset=` and a quote, the pass copied those characters and went on
      after a quote. */
  lemma HeaderBack(t1: string, f: string -> string)
    requires var a := SrcsetPass(true, t1, f);
      7 <= |a| && CharCI(a, 0, 'r') && CharCI(a, 1, 'c') && CharCI(a, 2, 's')
      && CharCI(a, 3, 'e') && CharCI(a, 4, 't') && a[5] == '=' && IsQuote(a[6])
    ensures 7 <= |t1| && t1[..7] == SrcsetPass(true, t1, f)[..7]
    ensures SrcsetPass(true, t1, f)[7..] == SrcsetPass(false, t1[7..], f)
  {
    var a := SrcsetPass(true, t1, f);
    var x := a[..7];
    HeaderTailNoStart(x);
    SrcsetPrefixBack(true, t1, x, f);
    assert t1 == x + t1[7..];
    SrcsetCopies(true, x, t1[7..], f);
  }

  /** Where a pass copies the first character, a match at the front of its
      output was already a match at the front of its input. */
  lemma {:induction false} SrcsetFrontKept(prev: bool, t: string, f: string -> string)
    requires |t| > 0 && !SrcsetMatch(prev, t)
    ensures !SrcsetMatch(prev, [t[0]] + SrcsetPass(IsWordChar(t[0]), t[1..], f))
  {
    var out := [t[0]] + SrcsetPass(IsWordChar(t[0]), t[1..], f);
    if SrcsetMatch(prev, out) {
      var a := SrcsetPass(true, t[1..], f);
      assert IsWordChar(t[0]) && out[1..] == a;
      assert a[5] == out[6] && a[6] == out[7];
      HeaderBack(t[1..], f);
      var k := SrcsetEnd(out).value;
      var m := k - 8;
      var b := SrcsetPass(false, t[8..], f);
      assert b == out[8..] by { assert a[7..] == out[8..]; assert t[1..][7..] == t[8..]; }
      assert forall j :: 0 <= j < m ==> !IsQuote(b[j]) by {
        forall j | 0 <= j < m ensures !IsQuote(b[j]) { assert b[j] == out[8 + j]; }
      }
      assert b[m] == out[k];
      FirstQuoteKept(false, t[8..], m, f);
      SameHeader(t, out);
      QuoteFromIs(t, 8, k);
    }
  }

  /** Texts agreeing on their first eight characters agree on whether they
      open with `srcset=` and a quote. */
  lemma SameHeader(t: string, out: string)
    requires 8 <= |t| && 8 <= |out| && t[0] == out[0] && t[1..][..7] == out[1..][..7]
    ensures forall i :: 0 <= i < 8 ==> t[i] == out[i]
  {
    forall i | 1 <= i < 8 ensures t[i] == out[i] {
      assert t[i] == t[1..][..7][i - 1] && out[i] == out[1..][..7][i - 1];
    }
  }

  /** A callback fit for a second pass: on a value without quotes it gives a
      value without quotes, and applied to its own result it changes nothing. */
  ghost predicate StableCallback(f: string -> string) {
    forall s :: QuoteFree(s) ==> QuoteFree(f(s)) && f(f(s)) == f(s)
  }

  /** A second pass with a stable callback changes nothing. */
  lemma {:induction false} SrcsetPassIdempotent(prev: bool, t: string, f: string -> string)
    requires StableCallback(f)
    ensures SrcsetPass(prev, SrcsetPass(prev, t, f), f) == SrcsetPass(prev, t, f)
    decreases |t|, 1
  {
    if |t| > 0 {
      if SrcsetMatch(prev, t) {
        MatchIdempotent(prev, t, f);
      } else {
        var out := SrcsetPass(prev, t, f);
        var tail := SrcsetPass(IsWordChar(t[0]), t[1..], f);
        assert out == [t[0]] + tail;
        SrcsetFrontKept(prev, t, f);
        SrcsetPassIdempotent(IsWordChar(t[0]), t[1..], f);
        assert out[0] == t[0] && out[1..] == tail;
      }
    }
  }

  /** The step of the proof above where the pass rewrites a match at the front. */
  lemma {:induction false} MatchIdempotent(prev: bool, t: string, f: string -> string)
    requires StableCallback(f) && SrcsetMatch(prev, t)
    ensures SrcsetPass(prev, SrcsetPass(prev, t, f), f) == SrcsetPass(prev, t, f)
    decreases |t|, 0
  {
    var k := SrcsetEnd(t).value;
    var q := t[7];
    var value := t[8..k];
    assert QuoteFree(value) by {
      forall j | 0 <= j < |value| ensures !IsQuote(value[j]) { assert value[j] == t[8 + j]; }
    }
    var v := f(value);
    var rest := SrcsetPass(false, t[k + 1..], f);
    SrcsetPassIdempotent(false, t[k + 1..], f);
    var out := "srcset=" + [q] + v + [q] + rest;
    assert SrcsetPass(prev, t, f) == out;
    RewrittenShape(q, v, rest);
    if v == [] {
      var x := out[1..9];
      HeaderTailNoStart(x);
      assert out == [out[0]] + (x + rest);
      assert !SrcsetMatch(false, out) by {
        QuoteFromIs(out, 8, 8);
      }
      SrcsetCopies(true, x, rest, f);
      assert SrcsetPass(false, out, f) == [out[0]] + SrcsetPass(true, x + rest, f);
    } else {
      QuoteFromIs(out, 8, 8 + |v|);
      assert SrcsetEnd(out) == Some(8 + |v|);
      assert out[8..8 + |v|] == v && f(v) == v;
      assert SrcsetPass(false, out, f) == "srcset=" + [q] + f(v) + [q] + SrcsetPass(false, out[9 + |v|..], f);
    }
  }

  /** The pieces of a rewritten match. */
  lemma RewrittenShape(q: char, v: string, rest: string)
    requires IsQuote(q) && QuoteFree(v)
    ensures var out := "srcset=" + [q] + v + [q] + rest;
      |out| == 9 + |v| + |rest| && out[7] == q && out[8 + |v|] == q
      && CharCI(out, 0, 's') && CharCI(out, 1, 'r') && CharCI(out, 2, 'c') && CharCI(out, 3, 's')
      && CharCI(out, 4, 'e') && CharCI(out, 5, 't') && out[6] == '='
      && out[8..8 + |v|] == v && out[9 + |v|..] == rest
      && forall j :: 8 <= j < 8 + |v| ==> !IsQuote(out[j])
  {
    var out := "srcset=" + [q] + v + [q] + rest;
    forall j | 8 <= j < 8 + |v| ensures !IsQuote(out[j]) { assert out[j] == v[j - 8]; }
  }

  /** `rewriteSrcset` is idempotent. */
  lemma RewriteSrcsetIdempotent(html: string)
    ensures RewriteSrcset(RewriteSrcset(html)) == RewriteSrcset(html)
  {
    forall s | QuoteFree(s) ensures QuoteFree(RewriteList(s)) && RewriteList(RewriteList(s)) == RewriteList(s) {
      RewriteListQuoteFree(s);
      RewriteListIdempotent(s);
    }
    SrcsetPassIdempotent(false, html, RewriteList);
  }

  /** `srcset=`, the name in any letter case. */
  predicate SrcsetOpen(o: string) {
    |o| == 7 && CharCI(o, 0, 's') && CharCI(o, 1, 'r') && CharCI(o, 2, 'c') && CharCI(o, 3, 's')
    && CharCI(o, 4, 'e') && CharCI(o, 5, 't') && o[6] == '='
  }

  /** A quoted `srcset` value is replaced by its rewritten list between the
      same quotes, the name written `srcset=` in small letters whatever its
      case was (`SRCSET=` comes back as `srcset=`), and scanning goes on
      after the closing quote. */
  lemma SrcsetValueRewritten(o: string, q: char, v: string, rest: string)
    requires SrcsetOpen(o) && IsQuote(q) && |v| > 0 && QuoteFree(v)
    ensures RewriteSrcset(o + [q] + v + [q] + rest)
         == "srcset=" + [q] + RewriteList(v) + [q] + RewriteSrcset(rest)
  {
    var t := o + [q] + v + [q] + rest;
    assert forall j :: 0 <= j < 7 ==> t[j] == o[j];
    assert t[7] == q && t[8 + |v|] == q;
    assert t[8..8 + |v|] == v && t[9 + |v|..] == rest;
    forall j | 8 <= j < 8 + |v| ensures !IsQuote(t[j]) { assert t[j] == v[j - 8]; }
    QuoteFromIs(t, 8, 8 + |v|);
    assert SrcsetEnd(t) == Some(8 + |v|);
    assert SrcsetMatch(false, t);
  }
}
