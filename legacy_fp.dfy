/**
 * The older copy of the function helpers (src/helpers/fp.ts). Its code is the
 * same as src/fp/index.ts without `pluck`, `is`, `isNot` and the checked pair,
 * so each member here is that definition with its own contract.
 */
module LegacyFp {
  import opened Wrappers
  import Js
  import Fp

  /** `compose(...functions)`: right to left. */
  function Compose<T(!new)>(fs: seq<T -> T>): (h: T -> T)
    ensures forall x :: h(x) == Fp.ComposeApply(fs, x)
  {
    Fp.Compose(fs)
  }

  /** `pipe(...functions)`: left to right, the reversed composition. */
  function Pipe<T(!new)>(fs: seq<T -> T>): (h: T -> T)
    ensures forall x :: h(x) == Fp.PipeApply(fs, x)
    ensures forall x :: h(x) == Compose(Fp.Reverse(fs))(x)
  {
    forall x ensures Fp.Pipe(fs)(x) == Fp.Compose(Fp.Reverse(fs))(x) {
      Fp.PipeIsReversedCompose(fs, x);
    }
    Fp.Pipe(fs)
  }

  /** `Bool(value)`: `Boolean(value)`. */
  function Bool(value: Js.Json): (r: bool)
    ensures !r <==> value in {Js.Undefined, Js.Null, Js.Bool(false), Js.Num(0), Js.Str("")}
  {
    Fp.Bool(value)
  }

  function IsEnabled(x: Fp.Flags): (r: bool)
    ensures r <==> x.enabled == Some(true)
  {
    Fp.IsEnabled(x)
  }

  function IsDisabled(x: Fp.Flags): (r: bool)
    ensures r == !IsEnabled(x)
  {
    Fp.IsDisabled(x)
  }

  function IsSelected(x: Fp.Flags): (r: bool)
    ensures r <==> x.selected == Some(true)
  {
    Fp.IsSelected(x)
  }

  function IsDeselected(x: Fp.Flags): (r: bool)
    ensures r == !IsSelected(x)
  {
    Fp.IsDeselected(x)
  }

  function IsVisible(x: Fp.Flags): (r: bool)
    ensures r <==> x.visible == Some(true)
  {
    Fp.IsVisible(x)
  }

  function IsInvisible(x: Fp.Flags): (r: bool)
    ensures r == !IsVisible(x)
  {
    Fp.IsInvisible(x)
  }

  /** `valueOrDefault(value, defaultValue)`: the default exactly for `undefined` and `null`. */
  function ValueOrDefault<T>(value: Js.Nullable<T>, defaultValue: T): (r: T)
    ensures value.Present? ==> r == value.value
    ensures !value.Present? ==> r == defaultValue
  {
    Fp.GetValueOrDefault(value, defaultValue)
  }
}
