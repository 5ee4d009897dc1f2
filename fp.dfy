/**
 * Function-composition helpers and small predicates (src/fp/index.ts).
 * Composed functions all have one type `T -> T`; objects are maps from keys to
 * values, and a missing property reads as `None` (undefined).
 */
module Fp {
  import opened Wrappers
  import Js

  // ---------------------------------------------------------------------
  // compose, pipe
  // ---------------------------------------------------------------------

  /** `functions.reduceRight((value, func) => func(value), data)`: the last function is applied first. */
  function ComposeApply<T>(fs: seq<T -> T>, data: T): T
  {
    if fs == [] then data else ComposeApply(fs[..|fs| - 1], fs[|fs| - 1](data))
  }

  /** `functions.reduce((value, func) => func(value), data)`: the first function is applied first. */
  function PipeApply<T>(fs: seq<T -> T>, data: T): T
  {
    if fs == [] then data else PipeApply(fs[1..], fs[0](data))
  }

  /** `compose(...functions)`. */
  function Compose<T(!new)>(fs: seq<T -> T>): (h: T -> T)
    ensures forall x :: h(x) == ComposeApply(fs, x)
  {
    x => ComposeApply(fs, x)
  }

  /** `pipe(...functions)`. */
  function Pipe<T(!new)>(fs: seq<T -> T>): (h: T -> T)
    ensures forall x :: h(x) == PipeApply(fs, x)
  {
    x => PipeApply(fs, x)
  }

  /** Composing a concatenation: the right part runs first, then the left part. */
  lemma {:induction false} ComposeAppend<T>(fs: seq<T -> T>, gs: seq<T -> T>, x: T)
    ensures ComposeApply(fs + gs, x) == ComposeApply(fs, ComposeApply(gs, x))
  {
    if gs != [] {
      assert (fs + gs)[..|fs + gs| - 1] == fs + gs[..|gs| - 1];
      ComposeAppend(fs, gs[..|gs| - 1], gs[|gs| - 1](x));
    } else {
      assert fs + gs == fs;
    }
  }

  /** Piping a concatenation: the left part runs first, then the right part. */
  lemma {:induction false} PipeAppend<T>(fs: seq<T -> T>, gs: seq<T -> T>, x: T)
    ensures PipeApply(fs + gs, x) == PipeApply(gs, PipeApply(fs, x))
  {
    if fs != [] {
      assert (fs + gs)[1..] == fs[1..] + gs;
      PipeAppend(fs[1..], gs, fs[0](x));
    } else {
      assert fs + gs == gs;
    }
  }

  /** `compose()` is the identity and `compose(f, g)(x)` is `f(g(x))`. */
  lemma ComposeBasics<T(!new)>(f: T -> T, g: T -> T, x: T)
    ensures Compose([])(x) == x
    ensures Compose([f])(x) == f(x)
    ensures Compose([f, g])(x) == f(g(x))
  {
    assert [f, g][..1] == [f];
    assert [f][..0] == [];
    assert ComposeApply([f], g(x)) == f(g(x));
    assert ComposeApply([f], x) == f(x);
  }

  /** `pipe()` is the identity and `pipe(f, g)(x)` is `g(f(x))`. */
  lemma PipeBasics<T(!new)>(f: T -> T, g: T -> T, x: T)
    ensures Pipe([])(x) == x
    ensures Pipe([f])(x) == f(x)
    ensures Pipe([f, g])(x) == g(f(x))
  {
    assert [f, g][1..] == [g];
    assert [f][1..] == [];
    assert [g][1..] == [];
    assert PipeApply([g], f(x)) == g(f(x));
    assert PipeApply([f], x) == f(x);
  }

  function Reverse<A>(s: seq<A>): (r: seq<A>)
    ensures |r| == |s|
  {
    if s == [] then [] else Reverse(s[1..]) + [s[0]]
  }

  /** A pipe is the composition of the reversed list of functions. */
  lemma {:induction false} PipeIsReversedCompose<T(!new)>(fs: seq<T -> T>, x: T)
    ensures Pipe(fs)(x) == Compose(Reverse(fs))(x)
  {
    if fs != [] {
      PipeIsReversedCompose(fs[1..], fs[0](x));
      ComposeAppend(Reverse(fs[1..]), [fs[0]], x);
      assert [fs[0]][..0] == [];
    }
  }

  // ---------------------------------------------------------------------
  // pluck, is, isNot
  // ---------------------------------------------------------------------

  /** `pluck(key)(obj)`: the property, or `None` when the object lacks it. */
  function Pluck<K, V>(key: K, obj: map<K, V>): (r: Option<V>)
    ensures r.Some? <==> key in obj
    ensures r.Some? ==> r.value == obj[key]
  {
    if key in obj then Some(obj[key]) else None
  }

  /** `is(key, value)(obj)`: the plucked property equals `value`; `None` is `undefined`. */
  function Is<K, V(==)>(key: K, value: Option<V>, obj: map<K, V>): (r: bool)
    ensures value.Some? ==> (r <==> key in obj && obj[key] == value.value)
    ensures value.None? ==> (r <==> key !in obj)
  {
    Pluck(key, obj) == value
  }

  /** `isNot(key, value)(obj)`. */
  function IsNot<K, V(==)>(key: K, value: Option<V>, obj: map<K, V>): (r: bool)
    ensures r == !Is(key, value, obj)
  {
    Pluck(key, obj) != value
  }

  /** `is` and `isNot` are complementary; `is(key, v)` holds exactly when the object has `key` set to `v`. */
  lemma IsIsNotComplementary<K, V>(key: K, value: Option<V>, obj: map<K, V>)
    ensures Is(key, value, obj) == !IsNot(key, value, obj)
    ensures value.Some? ==> (Is(key, value, obj) <==> key in obj && obj[key] == value.value)
    ensures value.None? ==> (Is(key, value, obj) <==> key !in obj)
  {
  }

  // ---------------------------------------------------------------------
  // Bool and the flag predicates
  // ---------------------------------------------------------------------

  /** `Bool(value)`: `Boolean(value)`. */
  function Bool(value: Js.Json): (r: bool)
    ensures !r <==> value in {Js.Undefined, Js.Null, Js.Bool(false), Js.Num(0), Js.Str("")}
  {
    Js.Truthy(value)
  }

  /** An object with the optional boolean flags the predicates read; `None` is an absent flag. */
  datatype Flags = Flags(enabled: Option<bool>, selected: Option<bool>, checked: Option<bool>, visible: Option<bool>)

  /** `Boolean(flag)` for an optional boolean. */
  function Set(flag: Option<bool>): (r: bool)
    ensures r <==> flag == Some(true)
  {
    match flag
    case None => false
    case Some(b) => b
  }

  function IsEnabled(x: Flags): (r: bool)
    ensures r <==> x.enabled == Some(true)
  {
    Set(x.enabled)
  }

  function IsDisabled(x: Flags): (r: bool)
    ensures r <==> x.enabled != Some(true)
  {
    !Set(x.enabled)
  }

  function IsSelected(x: Flags): (r: bool)
    ensures r <==> x.selected == Some(true)
  {
    Set(x.selected)
  }

  function IsDeselected(x: Flags): (r: bool)
    ensures r <==> x.selected != Some(true)
  {
    !Set(x.selected)
  }

  function IsChecked(x: Flags): (r: bool)
    ensures r <==> x.checked == Some(true)
  {
    Set(x.checked)
  }

  function IsUnchecked(x: Flags): (r: bool)
    ensures r <==> x.checked != Some(true)
  {
    !Set(x.checked)
  }

  function IsVisible(x: Flags): (r: bool)
    ensures r <==> x.visible == Some(true)
  {
    Set(x.visible)
  }

  function IsInvisible(x: Flags): (r: bool)
    ensures r <==> x.visible != Some(true)
  {
    !Set(x.visible)
  }

  /** Each positive predicate holds exactly when its flag is `true`, and its partner exactly when it does not. */
  lemma FlagPairsComplementary(x: Flags)
    ensures IsEnabled(x) <==> x.enabled == Some(true)
    ensures IsSelected(x) <==> x.selected == Some(true)
    ensures IsChecked(x) <==> x.checked == Some(true)
    ensures IsVisible(x) <==> x.visible == Some(true)
    ensures IsDisabled(x) == !IsEnabled(x) && IsDeselected(x) == !IsSelected(x)
    ensures IsUnchecked(x) == !IsChecked(x) && IsInvisible(x) == !IsVisible(x)
  {
  }

  // ---------------------------------------------------------------------
  // getValueOrDefault
  // ---------------------------------------------------------------------

  /** `getValueOrDefault(value, defaultValue)`: the default only for `undefined` and `null`. */
  function GetValueOrDefault<T>(value: Js.Nullable<T>, defaultValue: T): (r: T)
    ensures value.Present? ==> r == value.value
    ensures !value.Present? ==> r == defaultValue
  {
    match value
    case Missing => defaultValue
    case Nil => defaultValue
    case Present(v) => v
  }

  /** Falsy values that are set are kept: `false`, `0` and `''` do not fall back to the default. */
  lemma FalsyValuesAreKept(d: Js.Json)
    ensures GetValueOrDefault(Js.Present(Js.Bool(false)), d) == Js.Bool(false)
    ensures GetValueOrDefault(Js.Present(Js.Num(0)), d) == Js.Num(0)
    ensures GetValueOrDefault(Js.Present(Js.Str("")), d) == Js.Str("")
    ensures GetValueOrDefault(Js.Nil, d) == d && GetValueOrDefault(Js.Missing, d) == d
  {
  }
}
