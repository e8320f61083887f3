/** Characters and small string operations shared by the rewriters.  Where the
    proxy relies on JavaScript's own definitions (the regular-expression classes
    `\s` and `\w`, case-insensitive matching of ASCII letters, `trim`, `split`
    and `join`) they are written out here. */
module Text {

  datatype Option<T> = None | Some(value: T)

  /** JavaScript white space and line terminators: the class `\s` of a regular
      expression, which is also what `String.prototype.trim` removes. */
  predicate IsSpace(c: char) {
    c == ' ' || c == '\t' || c == '\n' || c == '\U{B}' || c == '\U{C}' || c == '\r'
    || c == '\U{A0}' || c == '\U{1680}' || ('\U{2000}' <= c <= '\U{200A}')
    || c == '\U{2028}' || c == '\U{2029}' || c == '\U{202F}' || c == '\U{205F}'
    || c == '\U{3000}' || c == '\U{FEFF}'
  }

  /** The class `\w`; a `\b` sits between a character of this class and one
      outside it (or the edge of the text). */
  predicate IsWordChar(c: char) {
    ('a' <= c <= 'z') || ('A' <= c <= 'Z') || ('0' <= c <= '9') || c == '_'
  }

  /** How a case-insensitive pattern sees a character: ASCII capitals fold to
      small letters, every other character stands for itself (without the `u`
      flag no character outside ASCII folds onto an ASCII letter). */
  function LowerChar(c: char): (r: char)
    ensures IsWordChar(r) <==> IsWordChar(c)
    ensures r == c || ('A' <= c <= 'Z' && 'a' <= r <= 'z')
    ensures 'a' <= r <= 'z' ==> IsWordChar(c)
  {
    if 'A' <= c <= 'Z' then (c as int + 32) as char else c
  }

  /** Whether `\b` holds in front of `t[j]`, given whether the character before `t`
      is a word character. */
  function WordBefore(prev: bool, t: seq<char>, j: nat): bool
    requires j <= |t|
  {
    if j == 0 then prev else IsWordChar(t[j - 1])
  }

  /** Whether a word character precedes what follows `x`. */
  function WordAfter(prev: bool, x: seq<char>): bool {
    WordBefore(prev, x, |x|)
  }

  /** `t[i]` is the pattern character `c` under the `i` flag (`c` is a small
      letter or not a letter at all). */
  predicate CharCI(t: seq<char>, i: nat, c: char) {
    i < |t| && LowerChar(t[i]) == c
  }

  /** A lookahead `(?!map\/)` fails at `k`: `map/` in any case starts there. */
  predicate MapAt(t: string, k: nat) {
    CharCI(t, k, 'm') && CharCI(t, k + 1, 'a') && CharCI(t, k + 2, 'p') && CharCI(t, k + 3, '/')
  }

  predicate StartsWith(t: seq<char>, p: seq<char>) {
    |p| <= |t| && t[..|p|] == p
  }

  predicate EndsWith(t: seq<char>, s: seq<char>) {
    |s| <= |t| && t[|t| - |s|..] == s
  }

  /** `String.prototype.includes`. */
  predicate Contains(t: seq<char>, s: seq<char>) {
    exists i :: 0 <= i <= |t| && StartsWith(t[i..], s)
  }

  /** The first position at or after `from` that holds `c`. */
  function IndexOf(t: seq<char>, c: char, from: nat): (r: Option<nat>)
    requires from <= |t|
    ensures r.Some? ==> from <= r.value < |t| && t[r.value] == c
    ensures r.Some? ==> forall j :: from <= j < r.value ==> t[j] != c
    ensures r.None? ==> forall j :: from <= j < |t| ==> t[j] != c
    decreases |t| - from
  {
    if from == |t| then None
    else if t[from] == c then Some(from)
    else IndexOf(t, c, from + 1)
  }

  /** The length of the run of white space that `t` begins with. */
  function SpaceRun(t: seq<char>): (n: nat)
    ensures n <= |t|
    ensures forall i :: 0 <= i < n ==> IsSpace(t[i])
    ensures n < |t| ==> !IsSpace(t[n])
  {
    if |t| > 0 && IsSpace(t[0]) then 1 + SpaceRun(t[1..]) else 0
  }

  /** The length of the run of characters other than white space that `t` begins with. */
  function NonSpaceRun(t: seq<char>): (n: nat)
    ensures n <= |t|
    ensures forall i :: 0 <= i < n ==> !IsSpace(t[i])
    ensures n < |t| ==> IsSpace(t[n])
  {
    if |t| > 0 && !IsSpace(t[0]) then 1 + NonSpaceRun(t[1..]) else 0
  }

  predicate IsTrimmed(s: seq<char>) {
    s == [] || (!IsSpace(s[0]) && !IsSpace(s[|s| - 1]))
  }

  /** `String.prototype.trim`: `s` without its leading and trailing white space. */
  function Trim(s: seq<char>): (r: seq<char>)
    ensures IsTrimmed(r)
    ensures SpaceRun(s) + |r| <= |s| && r == s[SpaceRun(s)..SpaceRun(s) + |r|]
    ensures forall k :: SpaceRun(s) + |r| <= k < |s| ==> IsSpace(s[k])
  {
    var u := s[SpaceRun(s)..];
    u[..TrailingSpaceStart(u, 0)]
  }

  /** The position where the trailing white space of `s` begins, searching no further left than `lo`. */
  function TrailingSpaceStart(s: seq<char>, lo: nat): (j: nat)
    requires lo <= |s|
    requires lo < |s| ==> !IsSpace(s[lo])
    ensures lo <= j <= |s|
    ensures forall k :: j <= k < |s| ==> IsSpace(s[k])
    ensures j > lo ==> !IsSpace(s[j - 1])
    decreases |s|
  {
    if |s| == lo || !IsSpace(s[|s| - 1]) then |s|
    else TrailingSpaceStart(s[..|s| - 1], lo)
  }

  /** Two trimmed slices of `s` that start at the same place and leave only
      white space behind them are the same slice. */
  lemma TrimmedSliceUnique(s: seq<char>, i: nat, a: seq<char>, b: seq<char>)
    requires i + |a| <= |s| && a == s[i..i + |a|] && IsTrimmed(a)
    requires i + |b| <= |s| && b == s[i..i + |b|] && IsTrimmed(b)
    requires forall k :: i + |a| <= k < |s| ==> IsSpace(s[k])
    requires forall k :: i + |b| <= k < |s| ==> IsSpace(s[k])
    ensures a == b
  {
  }

  /** Text without surrounding white space is its own trim. */
  lemma TrimOfTrimmed(s: seq<char>)
    requires IsTrimmed(s)
    ensures Trim(s) == s
  {
    assert SpaceRun(s) == 0;
    TrimmedSliceUnique(s, 0, Trim(s), s);
  }

  /** White space in front does not change the trim. */
  lemma TrimSpaceInFront(x: seq<char>)
    ensures Trim([' '] + x) == Trim(x)
  {
    var s := [' '] + x;
    assert s[1..] == x;
    assert s[SpaceRun(s)..] == x[SpaceRun(x)..];
  }

  /** A prefix of `s` with a first character: `s` starts with that
      character, and its tail with the prefix's tail. */
  lemma StartsWithTail(s: seq<char>, x: seq<char>)
    requires |x| > 0 && StartsWith(s, x)
    ensures |s| > 0 && s[0] == x[0] && StartsWith(s[1..], x[1..])
  {
    assert s[1..][..|x| - 1] == s[..|x|][1..];
  }

  /** The converse of `StartsWithTail`. */
  lemma StartsWithCons(s: seq<char>, x: seq<char>)
    requires |x| > 0 && |s| > 0 && s[0] == x[0] && StartsWith(s[1..], x[1..])
    ensures StartsWith(s, x)
  {
    assert s[..|x|] == [s[0]] + s[1..][..|x| - 1];
  }

  /** Putting the first element of `x` back in front of the rest of `x` and `p`. */
  lemma ConsAppend<T>(x: seq<T>, p: seq<T>)
    requires |x| > 0
    ensures [x[0]] + (x[1..] + p) == x + p
  {
  }

  /** A non-empty sequence is its first element followed by the rest. */
  lemma ConsSplit<T>(x: seq<T>)
    requires |x| > 0
    ensures [x[0]] + x[1..] == x
  {
  }

  /** `String.prototype.split` with a one-character separator: the pieces
      between separators, empty ones included. */
  function Split(s: seq<char>, sep: char): (r: seq<seq<char>>)
    ensures |r| >= 1
    ensures forall k :: 0 <= k < |r| ==> sep !in r[k]
    ensures Join(r, [sep]) == s
  {
    if s == [] then [[]]
    else
      var rest := Split(s[1..], sep);
      if s[0] == sep then [[]] + rest
      else [[s[0]] + rest[0]] + rest[1..]
  }

  /** `Array.prototype.join`. */
  function Join(xs: seq<seq<char>>, sep: seq<char>): seq<char>
  {
    if |xs| == 0 then []
    else if |xs| == 1 then xs[0]
    else xs[0] + sep + Join(xs[1..], sep)
  }
  /** Text without the separator is one piece. */
  lemma {:induction false} SplitWithoutSep(y: seq<char>, sep: char)
    requires sep !in y
    ensures Split(y, sep) == [y]
    decreases |y|
  {
    if y != [] {
      assert y[0] != sep;
      SplitWithoutSep(y[1..], sep);
      assert [y[0]] + y[1..] == y;
    }
  }

  /** A separator after a first piece without one ends that piece. */
  lemma {:induction false} SplitAfterPiece(a: seq<char>, sep: char, b: seq<char>)
    requires sep !in a
    ensures Split(a + [sep] + b, sep) == [a] + Split(b, sep)
    decreases |a|
  {
    var s := a + [sep] + b;
    if a == [] {
      assert s[0] == sep && s[1..] == b;
    } else {
      assert s[0] == a[0] && s[1..] == a[1..] + [sep] + b;
      assert a[0] != sep;
      SplitAfterPiece(a[1..], sep, b);
      assert [a[0]] + a[1..] == a;
    }
  }

  /** A character other than the separator in front joins the first piece. */
  lemma SplitConsOther(c: char, sep: char, b: seq<char>)
    requires c != sep
    ensures Split([c] + b, sep) == [[c] + Split(b, sep)[0]] + Split(b, sep)[1..]
  {
    assert ([c] + b)[1..] == b;
  }

  /** Splitting on `sep` what was joined with `sep` and a space gives back the
      pieces, every one after the first with the space in front. */
  lemma {:induction false} SplitJoined(ys: seq<seq<char>>, sep: char)
    requires |ys| >= 1 && sep != ' '
    requires forall i :: 0 <= i < |ys| ==> sep !in ys[i]
    ensures |Split(Join(ys, [sep, ' ']), sep)| == |ys|
    ensures Split(Join(ys, [sep, ' ']), sep)[0] == ys[0]
    ensures forall i :: 1 <= i < |ys| ==> Split(Join(ys, [sep, ' ']), sep)[i] == [' '] + ys[i]
    decreases |ys|
  {
    if |ys| == 1 {
      SplitWithoutSep(ys[0], sep);
    } else {
      var j := Join(ys[1..], [sep, ' ']);
      assert Join(ys, [sep, ' ']) == ys[0] + [sep] + ([' '] + j);
      SplitAfterPiece(ys[0], sep, [' '] + j);
      SplitJoined(ys[1..], sep);
      SplitConsOther(' ', sep, j);
      var r := Split(Join(ys, [sep, ' ']), sep);
      forall i | 1 <= i < |ys| ensures r[i] == [' '] + ys[i] {
        if i > 1 { assert r[i] == Split(j, sep)[i - 1] && ys[1..][i - 1] == ys[i]; }
      }
    }
  }

  /** Joining pieces that lack `c` with a separator that lacks it gives text that lacks it. */
  lemma {:induction false} JoinLacks(xs: seq<seq<char>>, sep: seq<char>, c: char)
    requires c !in sep && forall i :: 0 <= i < |xs| ==> c !in xs[i]
    ensures c !in Join(xs, sep)
    decreases |xs|
  {
    if |xs| > 1 {
      JoinLacks(xs[1..], sep, c);
    }
  }

  /** Every piece of joined text that lacks `c` lacks it too. */
  lemma {:induction false} JoinedPieceLacks(xs: seq<seq<char>>, sep: seq<char>, c: char, i: nat)
    requires i < |xs| && c !in Join(xs, sep)
    ensures c !in xs[i]
    decreases |xs|
  {
    if |xs| > 1 {
      var rest := Join(xs[1..], sep);
      assert Join(xs, sep) == xs[0] + sep + rest;
      if i > 0 {
        assert c !in rest;
        JoinedPieceLacks(xs[1..], sep, c, i - 1);
      }
    }
  }
}
