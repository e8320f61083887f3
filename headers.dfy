/** The header lists the proxy copies and edits: a `Headers` object of the
    Fetch standard, an ordered list of name/value fields whose names are
    compared without regard to ASCII letter case. */
module Headers {
  import opened Text

  datatype Field = Field(name: string, value: string)

  /** A header name with its ASCII capitals folded to small letters. */
  function LowerName(s: string): (r: string)
    ensures |r| == |s|
    ensures forall i :: 0 <= i < |s| ==> r[i] == LowerChar(s[i])
  {
    seq(|s|, i requires 0 <= i < |s| => LowerChar(s[i]))
  }

  /** Two spellings of the same header name. */
  predicate SameName(a: string, b: string) {
    LowerName(a) == LowerName(b)
  }

  /** Names of different lengths are different names. */
  lemma DistinctNames(a: string, b: string)
    requires |a| != |b|
    ensures !SameName(a, b)
  {
    assert |LowerName(a)| != |LowerName(b)|;
  }

  /** The values of the fields named `n`, in list order. */
  function Values(fs: seq<Field>, n: string): seq<string> {
    if fs == [] then []
    else (if SameName(fs[0].name, n) then [fs[0].value] else []) + Values(fs[1..], n)
  }

  /** `get`: no value without a field of that name, otherwise the values of
      all such fields joined with a comma and a space. */
  function GetValue(fs: seq<Field>, n: string): (r: Option<string>)
    ensures r.None? <==> Values(fs, n) == []
  {
    var vs := Values(fs, n);
    if vs == [] then None else Some(Join(vs, ", "))
  }

  /** The list without the fields named `n` (`delete`). */
  function Without(fs: seq<Field>, n: string): (r: seq<Field>)
    ensures |r| <= |fs|
  {
    if fs == [] then []
    else (if SameName(fs[0].name, n) then [] else [fs[0]]) + Without(fs[1..], n)
  }

  /** The position of the first field named `n`. */
  function FirstNamed(fs: seq<Field>, n: string): (r: Option<nat>)
    ensures r.Some? ==> r.value < |fs| && SameName(fs[r.value].name, n)
    ensures r.Some? ==> forall i :: 0 <= i < r.value ==> !SameName(fs[i].name, n)
    ensures r.None? ==> forall i :: 0 <= i < |fs| ==> !SameName(fs[i].name, n)
  {
    if fs == [] then None
    else if SameName(fs[0].name, n) then Some(0)
    else match FirstNamed(fs[1..], n)
      case None => None
      case Some(k) => Some(k + 1)
  }

  /** `set`: the first field named `n` takes the value and the later ones go;
      without such a field the pair is appended. */
  function SetField(fs: seq<Field>, n: string, v: string): seq<Field> {
    match FirstNamed(fs, n)
    case None => fs + [Field(n, v)]
    case Some(k) => fs[..k] + [Field(fs[k].name, v)] + Without(fs[k + 1..], n)
  }

  lemma {:induction false} ValuesConcat(a: seq<Field>, b: seq<Field>, n: string)
    ensures Values(a + b, n) == Values(a, n) + Values(b, n)
    decreases |a|
  {
    if a != [] {
      assert (a + b)[0] == a[0] && (a + b)[1..] == a[1..] + b;
      ValuesConcat(a[1..], b, n);
    } else {
      assert a + b == b;
    }
  }

  lemma {:induction false} WithoutConcat(a: seq<Field>, b: seq<Field>, n: string)
    ensures Without(a + b, n) == Without(a, n) + Without(b, n)
    decreases |a|
  {
    if a != [] {
      assert (a + b)[0] == a[0] && (a + b)[1..] == a[1..] + b;
      WithoutConcat(a[1..], b, n);
    } else {
      assert a + b == b;
    }
  }

  /** Fields none of which is named `n` have no value for `n` and are kept by
      `Without`. */
  lemma {:induction false} NoneNamed(fs: seq<Field>, n: string)
    requires forall i :: 0 <= i < |fs| ==> !SameName(fs[i].name, n)
    ensures Values(fs, n) == [] && Without(fs, n) == fs
    decreases |fs|
  {
    if fs != [] {
      NoneNamed(fs[1..], n);
    }
  }

  /** After `Without(fs, n)`, the values are those of `fs` for every other
      name and none for `n`. */
  lemma {:induction false} ValuesWithout(fs: seq<Field>, n: string, m: string)
    ensures Values(Without(fs, n), m) == if SameName(m, n) then [] else Values(fs, m)
    decreases |fs|
  {
    if fs != [] {
      var head := if SameName(fs[0].name, n) then [] else [fs[0]];
      ValuesConcat(head, Without(fs[1..], n), m);
      ValuesWithout(fs[1..], n, m);
      assert Values([fs[0]], m) == if SameName(fs[0].name, m) then [fs[0].value] else [];
    }
  }

  /** Deleting twice is deleting once. */
  lemma {:induction false} WithoutTwice(fs: seq<Field>, n: string)
    ensures Without(Without(fs, n), n) == Without(fs, n)
    decreases |fs|
  {
    if fs != [] {
      var head := if SameName(fs[0].name, n) then [] else [fs[0]];
      WithoutConcat(head, Without(fs[1..], n), n);
      WithoutTwice(fs[1..], n);
      assert Without(head, n) == head;
    }
  }

  /** The list of one field has its value for its own name only. */
  lemma ValuesOne(f: Field, m: string)
    ensures Values([f], m) == if SameName(m, f.name) then [f.value] else []
  {
    assert [f][1..] == [];
  }

  /** The values of a list cut in three around one field. */
  lemma ValuesAround(a: seq<Field>, x: Field, b: seq<Field>, m: string)
    ensures Values(a + [x] + b, m) == Values(a, m) + (if SameName(x.name, m) then [x.value] else []) + Values(b, m)
  {
    ValuesConcat(a + [x], b, m);
    ValuesConcat(a, [x], m);
  }

  /** After `SetField(fs, n, v)` the only value for `n` is `v`, and every other
      name has the values it had. */
  lemma ValuesSet(fs: seq<Field>, n: string, v: string, m: string)
    ensures Values(SetField(fs, n, v), m) == if SameName(m, n) then [v] else Values(fs, m)
  {
    match FirstNamed(fs, n)
    case None =>
      ValuesConcat(fs, [Field(n, v)], m);
      if SameName(m, n) { NoneNamed(fs, m); }
    case Some(k) =>
      var a, b := fs[..k], fs[k + 1..];
      assert fs == a + [fs[k]] + b;
      ValuesSetAt(a, fs[k], b, n, v, m);
  }

  /** The case of `ValuesSet` where the first field named `n`, `g`, stands
      between `a` and `b`. */
  lemma ValuesSetAt(a: seq<Field>, g: Field, b: seq<Field>, n: string, v: string, m: string)
    requires forall i :: 0 <= i < |a| ==> !SameName(a[i].name, n)
    requires SameName(g.name, n)
    ensures Values(a + [Field(g.name, v)] + Without(b, n), m)
         == if SameName(m, n) then [v] else Values(a + [g] + b, m)
  {
    ValuesAround(a, g, b, m);
    ValuesAround(a, Field(g.name, v), Without(b, n), m);
    ValuesWithout(b, n, m);
    if SameName(m, n) {
      NoneNamed(a, m);
    }
  }

  /** `SetField` touches only the fields named `n`. */
  lemma WithoutSet(fs: seq<Field>, n: string, v: string)
    ensures Without(SetField(fs, n, v), n) == Without(fs, n)
  {
    match FirstNamed(fs, n)
    case None =>
      WithoutConcat(fs, [Field(n, v)], n);
    case Some(k) =>
      var a, b := fs[..k], fs[k + 1..];
      assert fs == a + [fs[k]] + b;
      WithoutConcat(a + [fs[k]], b, n);
      WithoutConcat(a, [fs[k]], n);
      WithoutConcat(a + [Field(fs[k].name, v)], Without(b, n), n);
      WithoutConcat(a, [Field(fs[k].name, v)], n);
      WithoutTwice(b, n);
  }

  /** After appending a field named `n`, its value comes last among the values
      for `n`; other names keep theirs. */
  lemma ValuesAppend(fs: seq<Field>, n: string, v: string, m: string)
    ensures Values(fs + [Field(n, v)], m) == Values(fs, m) + (if SameName(m, n) then [v] else [])
  {
    ValuesConcat(fs, [Field(n, v)], m);
  }

  /** After `set(n, v)`, `get(n)` gives exactly `v`, and `get` of any other
      name gives what it gave before. */
  lemma GetAfterSet(fs: seq<Field>, n: string, v: string, m: string)
    ensures GetValue(SetField(fs, n, v), m) == if SameName(m, n) then Some(v) else GetValue(fs, m)
  {
    ValuesSet(fs, n, v, m);
  }

  /** After `delete(n)`, `get(n)` gives nothing, and `get` of any other name
      gives what it gave before. */
  lemma GetAfterDelete(fs: seq<Field>, n: string, m: string)
    ensures GetValue(Without(fs, n), m) == if SameName(m, n) then None else GetValue(fs, m)
  {
    ValuesWithout(fs, n, m);
  }

  /** A mutable header list. */
  class HeaderList {
    var fields: seq<Field>

    /** `new Headers(init)` over the fields of `init`. */
    constructor(init: seq<Field>)
      ensures fields == init
    {
      fields := init;
    }

    /** `get(name)`. */
    function Get(n: string): (r: Option<string>)
      reads this
      ensures r.None? <==> Values(fields, n) == []
      ensures r.Some? ==> r.value == Join(Values(fields, n), ", ")
    {
      GetValue(fields, n)
    }

    /** `getSetCookie()`: every `Set-Cookie` value on its own, in order. */
    function GetSetCookie(): (r: seq<string>)
      reads this
      ensures r == Values(fields, "set-cookie")
    {
      Values(fields, "set-cookie")
    }

    /** `set(name, value)`. */
    method Set(n: string, v: string)
      modifies this
      ensures fields == SetField(old(fields), n, v)
      ensures forall m :: Values(fields, m) == if SameName(m, n) then [v] else Values(old(fields), m)
      ensures Get(n) == Some(v)
    {
      GetAfterSet(fields, n, v, n);
      forall m ensures Values(SetField(fields, n, v), m) == if SameName(m, n) then [v] else Values(fields, m) {
        ValuesSet(fields, n, v, m);
      }
      fields := SetField(fields, n, v);
    }

    /** `delete(name)`. */
    method Delete(n: string)
      modifies this
      ensures fields == Without(old(fields), n)
      ensures forall m :: Values(fields, m) == if SameName(m, n) then [] else Values(old(fields), m)
      ensures Get(n) == None
    {
      GetAfterDelete(fields, n, n);
      forall m ensures Values(Without(fields, n), m) == if SameName(m, n) then [] else Values(fields, m) {
        ValuesWithout(fields, n, m);
      }
      fields := Without(fields, n);
    }

    /** `append(name, value)`. */
    method Append(n: string, v: string)
      modifies this
      ensures fields == old(fields) + [Field(n, v)]
      ensures forall m :: Values(fields, m) == Values(old(fields), m) + (if SameName(m, n) then [v] else [])
    {
      forall m ensures Values(fields + [Field(n, v)], m) == Values(fields, m) + (if SameName(m, n) then [v] else []) {
        ValuesAppend(fields, n, v, m);
      }
      fields := fields + [Field(n, v)];
    }
  }
}
