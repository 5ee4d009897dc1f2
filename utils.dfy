/**
 * Small utilities (src/utils/index.ts): a settable reference cell, a dotted
 * path lookup over JSON-like values, and building an image data URL.
 */
module Utils {
  import opened Wrappers
  import Js
  import Text

  // ---------------------------------------------------------------------
  // useRef
  // ---------------------------------------------------------------------

  /**
   * The value `setRef(el)` stores: with `nullRefs` every argument, `null` and
   * `undefined` included; otherwise `el ?? current`, which keeps the current
   * value for `null` and `undefined` but stores falsy values such as `false` and `0`.
   */
  function NextRef<T>(nullRefs: bool, current: Js.Nullable<T>, el: Js.Nullable<T>): (r: Js.Nullable<T>)
    ensures nullRefs ==> r == el
    ensures !nullRefs ==> r == if el.Present? then el else current
  {
    if nullRefs then el
    else
      match el
      case Present(_) => el
      case _ => current
  }

  /** `useRef({ nullRefs })`: an object holding `ref` and its setter. */
  class Ref<T> {
    const nullRefs: bool
    var ref: Js.Nullable<T>

    /** A fresh reference holds `undefined`. */
    constructor(nullRefs: bool)
      ensures this.nullRefs == nullRefs && ref == Js.Missing
    {
      this.nullRefs := nullRefs;
      ref := Js.Missing;
    }

    /** `setRef(el)`: overwrites `ref` by the rule of `NextRef`. */
    method SetRef(el: Js.Nullable<T>)
      modifies this
      ensures ref == NextRef(nullRefs, old(ref), el)
    {
      ref := if nullRefs then el else if el.Present? then el else ref;
    }
  }

  /** The state after a sequence of `setRef` calls. */
  function Replay<T>(nullRefs: bool, current: Js.Nullable<T>, els: seq<Js.Nullable<T>>): Js.Nullable<T>
    decreases |els|
  {
    if els == [] then current else Replay(nullRefs, NextRef(nullRefs, current, els[0]), els[1..])
  }

  /** The last non-nullish argument of a sequence of calls, or `current` when there is none. */
  function LastPresent<T>(current: Js.Nullable<T>, els: seq<Js.Nullable<T>>): (r: Js.Nullable<T>)
    ensures r == current || r in els
    ensures r != current ==> r.Present?
  {
    if els == [] then current
    else if els[|els| - 1].Present? then els[|els| - 1]
    else LastPresent(current, els[..|els| - 1])
  }

  /** Without `nullRefs` the reference ends on the last non-nullish value set; with it, on the last value set. */
  lemma {:induction false} ReplayKeepsLastPresent<T>(nullRefs: bool, current: Js.Nullable<T>, els: seq<Js.Nullable<T>>)
    ensures !nullRefs ==> Replay(nullRefs, current, els) == LastPresent(current, els)
    ensures nullRefs && els != [] ==> Replay(nullRefs, current, els) == els[|els| - 1]
    decreases |els|
  {
    if els != [] {
      ReplayKeepsLastPresent(nullRefs, NextRef(nullRefs, current, els[0]), els[1..]);
      if !nullRefs {
        LastPresentCons(current, els);
      }
    }
  }

  lemma {:induction false} LastPresentCons<T>(current: Js.Nullable<T>, els: seq<Js.Nullable<T>>)
    requires els != []
    ensures LastPresent(NextRef(false, current, els[0]), els[1..]) == LastPresent(current, els)
  {
    if |els| > 1 {
      var init := els[..|els| - 1];
      assert init[0] == els[0] && init[1..] == els[1..][..|els[1..]| - 1];
      LastPresentCons(current, init);
    }
  }

  /** Setting the same value twice is setting it once. */
  lemma SetRefIdempotent<T>(nullRefs: bool, current: Js.Nullable<T>, el: Js.Nullable<T>)
    ensures NextRef(nullRefs, NextRef(nullRefs, current, el), el) == NextRef(nullRefs, current, el)
  {
  }

  /** The sequence of the tests without `nullRefs`: 'foo', null and undefined leave 'foo'; then false and 0 are stored. */
  method DefaultIgnoresNullish() returns (afterNullish: Js.Nullable<Js.Json>, afterFalse: Js.Nullable<Js.Json>, afterZero: Js.Nullable<Js.Json>)
    ensures afterNullish == Js.Present(Js.Str("foo"))
    ensures afterFalse == Js.Present(Js.Bool(false))
    ensures afterZero == Js.Present(Js.Num(0))
  {
    var el := new Ref<Js.Json>(false);
    el.SetRef(Js.Present(Js.Str("foo")));
    el.SetRef(Js.Nil);
    el.SetRef(Js.Missing);
    afterNullish := el.ref;
    el.SetRef(Js.Present(Js.Bool(false)));
    afterFalse := el.ref;
    el.SetRef(Js.Present(Js.Num(0)));
    afterZero := el.ref;
  }

  /** The sequence of the tests with `nullRefs`: 'foo', then null, then undefined are each stored. */
  method NullRefsStoresNullish() returns (afterFoo: Js.Nullable<Js.Json>, afterNull: Js.Nullable<Js.Json>, afterUndefined: Js.Nullable<Js.Json>)
    ensures afterFoo == Js.Present(Js.Str("foo"))
    ensures afterNull == Js.Nil
    ensures afterUndefined == Js.Missing
  {
    var el := new Ref<Js.Json>(true);
    el.SetRef(Js.Present(Js.Str("foo")));
    afterFoo := el.ref;
    el.SetRef(Js.Nil);
    afterNull := el.ref;
    el.SetRef(Js.Missing);
    afterUndefined := el.ref;
  }

  // ---------------------------------------------------------------------
  // getByPath
  // ---------------------------------------------------------------------

  /**
   * One step of `(nestedObject, key) => nestedObject && nestedObject[key]`: a
   * falsy value is returned as it is; an object yields its property, or
   * `undefined` when it has none.
   */
  function Step(o: Js.Json, key: string): (r: Js.Json)
    ensures !Js.Truthy(o) ==> r == o
    ensures o.Obj? ==> r == if key in o.fields then o.fields[key] else Js.Undefined
  {
    if !Js.Truthy(o) then o
    else
      match o
      case Obj(fields) => if key in fields then fields[key] else Js.Undefined
      case _ => Js.Undefined
  }

  /** The `reduce` over the keys, from the left. */
  function Walk(o: Js.Json, keys: seq<string>): Js.Json
    decreases |keys|
  {
    if keys == [] then o else Walk(Step(o, keys[0]), keys[1..])
  }

  /** `getByPath(object, path)`: follow the '.'-separated keys of `path` from `object`. */
  function GetByPath(obj: Js.Json, path: string): (r: Js.Json)
    ensures '.' !in path ==> r == Step(obj, path)
    ensures !Js.Truthy(obj) ==> r == obj
  {
    var keys := Text.Split(path, '.');
    OneKey(path);
    WalkOne(obj, path);
    FalsyStays(obj, keys);
    Walk(obj, keys)
  }

  lemma WalkOne(o: Js.Json, key: string)
    ensures Walk(o, [key]) == Step(o, key)
  {
    assert [key][1..] == [];
  }

  lemma OneKey(path: string)
    ensures '.' !in path ==> Text.Split(path, '.') == [path]
  {
    if '.' !in path {
      Text.SplitWithoutSeparator(path, '.');
    }
  }

  /** Walking a concatenation of key lists walks the first, then the second. */
  lemma {:induction false} WalkAppend(o: Js.Json, a: seq<string>, b: seq<string>)
    ensures Walk(o, a + b) == Walk(Walk(o, a), b)
    decreases |a|
  {
    if a != [] {
      assert (a + b)[1..] == a[1..] + b;
      WalkAppend(Step(o, a[0]), a[1..], b);
    } else {
      assert a + b == b;
    }
  }

  /** A falsy value, `undefined` from a missing key among them, stays what it is for the remaining keys. */
  lemma {:induction false} FalsyStays(o: Js.Json, keys: seq<string>)
    ensures !Js.Truthy(o) ==> Walk(o, keys) == o
  {
    if keys != [] && !Js.Truthy(o) {
      FalsyStays(o, keys[1..]);
    }
  }

  /** Looking up `p.q` is looking up `q` in what `p` leads to. */
  lemma PathComposes(obj: Js.Json, p: string, q: string)
    ensures GetByPath(obj, p + "." + q) == GetByPath(GetByPath(obj, p), q)
  {
    Text.SplitAppend(p, q, '.');
    assert p + "." + q == p + ['.'] + q;
    WalkAppend(obj, Text.Split(p, '.'), Text.Split(q, '.'));
  }

  /** A missing key on the way yields `undefined`, whatever follows it. */
  lemma MissingKeyYieldsUndefined(obj: Js.Json, p: string, key: string, q: string)
    requires '.' !in key
    requires GetByPath(obj, p).Obj? && key !in GetByPath(obj, p).fields
    ensures GetByPath(obj, p + "." + key) == Js.Undefined
    ensures GetByPath(obj, p + "." + key + "." + q) == Js.Undefined
  {
    PathComposes(obj, p, key);
    PathComposes(obj, p + "." + key, q);
    FalsyStays(Js.Undefined, Text.Split(q, '.'));
  }

  function Inner(): Js.Json {
    Js.Obj(map["value" := Js.Str("foobar")])
  }

  /** The object `{ bar: { value: 'foobar' } }` of the tests. */
  /** Once a path leads to `undefined`, every longer path does too. */
  lemma UndefinedBelow(obj: Js.Json, p: string, q: string)
    requires GetByPath(obj, p) == Js.Undefined
    ensures GetByPath(obj, p + "." + q) == Js.Undefined
  {
    PathComposes(obj, p, q);
  }

  function Foo(): Js.Json {
    Js.Obj(map["bar" := Inner()])
  }

  /** A prefix path gives the whole nested object: 'bar' is `{ value: 'foobar' }`. */
  lemma PrefixPathExample()
    ensures GetByPath(Foo(), "bar") == Inner()
  {
    assert '.' !in "bar";
  }

  /** 'bar.value' is 'foobar'. */
  lemma NestedPathExample()
    ensures GetByPath(Foo(), "bar.value") == Js.Str("foobar")
  {
    var path := "bar" + "." + "value";
    assert path == "bar.value";
    assert GetByPath(Foo(), path) == GetByPath(Inner(), "value") by {
      PathComposes(Foo(), "bar", "value");
      PrefixPathExample();
    }
    InnerValue();
  }

  lemma InnerValue()
    ensures GetByPath(Inner(), "value") == Js.Str("foobar")
  {
    assert '.' !in "value";
  }

  /** 'foo.foo' and 'foo.foo.bar' are undefined: the first key is missing. */
  lemma MissingPathExample()
    ensures GetByPath(Foo(), "foo.foo") == Js.Undefined
    ensures GetByPath(Foo(), "foo.foo.bar") == Js.Undefined
  {
    assert '.' !in "foo";
    UndefinedBelow(Foo(), "foo", "foo");
    assert "foo" + "." + "foo" == "foo.foo";
    UndefinedBelow(Foo(), "foo.foo", "bar");
    assert "foo.foo" + "." + "bar" == "foo.foo.bar";
  }

  // ---------------------------------------------------------------------
  // base64ImageToDataUrl
  // ---------------------------------------------------------------------

  const DataImagePrefix: string := "data:image/"
  const Base64Marker: string := ";base64,"

  /** `base64ImageToDataUrl(base64String, type = 'jpg')`. */
  function Base64ImageToDataUrl(base64String: string, imageType: string := "jpg"): (r: string)
    ensures |r| == |DataImagePrefix| + |imageType| + |Base64Marker| + |base64String|
  {
    DataImagePrefix + imageType + Base64Marker + base64String
  }

  /** The index of the first `c` in `s`, or `|s|`. */
  function FirstIndex(s: string, c: char): (i: nat)
    ensures i <= |s| && c !in s[..i] && (i < |s| ==> s[i] == c)
  {
    if s == [] then 0
    else if s[0] == c then 0
    else
      var j := FirstIndex(s[1..], c);
      assert s[..j + 1] == [s[0]] + s[1..][..j];
      j + 1
  }

  /** Reads an image data URL back into its type and its payload. */
  function ParseImageDataUrl(s: string): Option<(string, string)>
  {
    var n := |DataImagePrefix|;
    if |s| < n || s[..n] != DataImagePrefix then None
    else
      var rest := s[n..];
      var i := FirstIndex(rest, ';');
      var m := |Base64Marker|;
      if |rest| - i < m || rest[i..i + m] != Base64Marker then None
      else Some((rest[..i], rest[i + m..]))
  }

  /** For an image type without ';', the URL gives back its type and payload. */
  lemma DataUrlRoundTrip(base64String: string, imageType: string)
    requires ';' !in imageType
    ensures ParseImageDataUrl(Base64ImageToDataUrl(base64String, imageType)) == Some((imageType, base64String))
  {
    var s := Base64ImageToDataUrl(base64String, imageType);
    var rest := s[|DataImagePrefix|..];
    assert s[..|DataImagePrefix|] == DataImagePrefix;
    assert rest == imageType + Base64Marker + base64String;
    FirstIndexAfter(imageType, Base64Marker + base64String, ';');
    assert rest == imageType + (Base64Marker + base64String);
    var i := |imageType|;
    assert rest[i..i + |Base64Marker|] == Base64Marker;
    assert rest[..i] == imageType;
    assert rest[i + |Base64Marker|..] == base64String;
  }

  lemma {:induction false} FirstIndexAfter(a: string, b: string, c: char)
    requires c !in a && b != [] && b[0] == c
    ensures FirstIndex(a + b, c) == |a|
  {
    if a != [] {
      assert (a + b)[1..] == a[1..] + b;
      FirstIndexAfter(a[1..], b, c);
    } else {
      assert a + b == b;
    }
  }

  lemma DataUrlExamples()
    ensures Base64ImageToDataUrl("one", "png") == "data:image/png;base64,one"
    ensures Base64ImageToDataUrl("one") == "data:image/jpg;base64,one"
    ensures Base64ImageToDataUrl("") == "data:image/jpg;base64,"
  {
  }
}
