/**
 * Array helpers (src/arrays/index.ts). JavaScript arrays are sequences; every
 * helper returns a new sequence and leaves its input alone. `undefined` results
 * are `None`. Element equality is Dafny's `==` where the source uses `===`.
 */
module Arrays {
  import opened Wrappers
  import Numbers

  /** `new Array(n)` throws this RangeError for a negative length. */
  datatype ArrayError = InvalidArrayLength

  // ---------------------------------------------------------------------
  // createRange
  // ---------------------------------------------------------------------

  /**
   * `createRange(s, e = 0)`: with `e == 0` this is the one-argument form, the
   * array 0 .. s-1; otherwise the inclusive range s .. e. A negative length
   * (`s < 0` in the first form, `s > e + 1` in the second) throws.
   */
  function CreateRange(s: int, e: int): (r: Result<seq<int>, ArrayError>)
    ensures r.Err? <==> (if e != 0 then e - s + 1 else s) < 0
    ensures r.Ok? && e != 0 ==> |r.value| == e - s + 1 && forall i :: 0 <= i < |r.value| ==> r.value[i] == s + i
    ensures r.Ok? && e == 0 ==> |r.value| == s && forall i :: 0 <= i < |r.value| ==> r.value[i] == i
  {
    var len := if e != 0 then e - s + 1 else s;
    if len < 0 then Err(InvalidArrayLength)
    else Ok(seq(len, i => if e != 0 then s + i else i))
  }

  /** The one-argument form: exactly the numbers 0 .. n-1, ascending. */
  lemma RangeMembers(n: int)
    requires n >= 0
    ensures CreateRange(n, 0).Ok?
    ensures forall x :: x in CreateRange(n, 0).value <==> 0 <= x < n
    ensures forall i, j :: 0 <= i < j < n ==> CreateRange(n, 0).value[i] < CreateRange(n, 0).value[j]
  {
    var r := CreateRange(n, 0).value;
    forall x | 0 <= x < n ensures x in r {
      assert r[x] == x;
    }
  }

  /** The two-argument form with `e != 0`: exactly the numbers s .. e, ascending. */
  lemma RangeFromToMembers(s: int, e: int)
    requires e != 0 && s <= e + 1
    ensures CreateRange(s, e).Ok? && |CreateRange(s, e).value| == e - s + 1
    ensures forall x :: x in CreateRange(s, e).value <==> s <= x <= e
    ensures forall i, j :: 0 <= i < j < e - s + 1 ==> CreateRange(s, e).value[i] < CreateRange(s, e).value[j]
  {
    var r := CreateRange(s, e).value;
    forall x | s <= x <= e ensures x in r {
      assert r[x - s] == x;
    }
  }

  /** With `e == 0` the first argument is a length, not a start: createRange(-2, 0) throws and createRange(3, 0) is [0, 1, 2]. */
  lemma RangeEndingAtZeroIsLength()
    ensures CreateRange(-2, 0).Err?
    ensures CreateRange(3, 0) == Ok([0, 1, 2])
    ensures CreateRange(-2, 2) == Ok([-2, -1, 0, 1, 2])
  {
    assert CreateRange(3, 0).value == [0, 1, 2];
    assert CreateRange(-2, 2).value == [-2, -1, 0, 1, 2];
  }

  // ---------------------------------------------------------------------
  // getArraySum
  // ---------------------------------------------------------------------

  /** `array.reduce((acc, val) => acc + val, 0)`, a fold from the left. */
  function GetArraySum(a: seq<int>): (r: int)
    ensures a == [] ==> r == 0
    ensures (forall i :: 0 <= i < |a| ==> a[i] >= 0) ==> r >= 0 && forall i :: 0 <= i < |a| ==> a[i] <= r
  {
    if a == [] then 0 else GetArraySum(a[..|a| - 1]) + a[|a| - 1]
  }

  /** The sum of a concatenation is the sum of the parts. */
  lemma {:induction false} SumAppend(a: seq<int>, b: seq<int>)
    ensures GetArraySum(a + b) == GetArraySum(a) + GetArraySum(b)
  {
    if b != [] {
      assert (a + b)[..|a + b| - 1] == a + b[..|b| - 1];
      SumAppend(a, b[..|b| - 1]);
    } else {
      assert a + b == a;
    }
  }

  /** The sum of createRange(1, n) is n(n+1)/2; createRange(1, 10) sums to 55. */
  lemma {:induction false} SumOfRange(n: int)
    requires n >= 1
    ensures CreateRange(1, n).Ok? && GetArraySum(CreateRange(1, n).value) == n * (n + 1) / 2
  {
    var r := CreateRange(1, n).value;
    if n > 1 {
      SumOfRange(n - 1);
      var p := CreateRange(1, n - 1).value;
      assert r[..|r| - 1] == p by {
        assert |r[..|r| - 1]| == |p|;
        forall i | 0 <= i < |p| ensures r[..|r| - 1][i] == p[i] { }
      }
      assert GetArraySum(r) == GetArraySum(p) + n by {
        assert r[|r| - 1] == n;
      }
    } else {
      assert r == [1];
      assert r[..0] == [];
    }
  }

  // ---------------------------------------------------------------------
  // indexOf, removeFromArray, getLastElement, siblings
  // ---------------------------------------------------------------------

  /** `array.indexOf(x)`: the first index holding `x`, or -1. */
  function IndexOf<T(==)>(a: seq<T>, x: T): (i: int)
    ensures -1 <= i < |a|
    ensures i == -1 <==> x !in a
    ensures i >= 0 ==> a[i] == x && x !in a[..i]
  {
    if |a| == 0 then -1
    else if a[0] == x then 0
    else
      var j := IndexOf(a[1..], x);
      if j == -1 then -1
      else
        assert a[..j + 1] == [a[0]] + a[1..][..j];
        j + 1
  }

  /** `removeFromArray(array, item)`: a copy without the first occurrence of `item`. */
  function RemoveFromArray<T(==)>(a: seq<T>, item: T): (r: seq<T>)
    ensures item !in a ==> r == a
    ensures |r| == if item in a then |a| - 1 else |a|
    ensures multiset(r) == multiset(a) - multiset{item}
    ensures item in a ==> var i := IndexOf(a, item);
      r[..i] == a[..i] && r[i..] == a[i + 1..]
  {
    var i := IndexOf(a, item);
    if i == -1 then
      assert multiset(a)[item] == 0;
      a[..]
    else
      assert a == a[..i] + [a[i]] + a[i + 1..];
      a[..i] + a[i + 1..]
  }

  /** `getLastElement(array)`: `array[array.length - 1]`, undefined for an empty array. */
  function GetLastElement<T>(a: seq<T>): (r: Option<T>)
    ensures r.None? <==> a == []
  {
    if |a| == 0 then None else Some(a[|a| - 1])
  }

  /** What was appended last is the last element. */
  lemma LastOfAppend<T>(a: seq<T>, x: T)
    ensures GetLastElement(a + [x]) == Some(x)
  {
  }

  /** `getSibling(array, item, n)`: `array[array.indexOf(item) + n]`. */
  function GetSibling<T(==)>(a: seq<T>, item: T, n: int): (r: Option<T>)
    ensures item !in a ==> r == if 0 <= n - 1 < |a| then Some(a[n - 1]) else None
    ensures forall i :: 0 <= i < |a| && a[i] == item && item !in a[..i] ==>
      r == if 0 <= i + n < |a| then Some(a[i + n]) else None
  {
    var k := IndexOf(a, item) + n;
    if 0 <= k < |a| then Some(a[k]) else None
  }

  /** `getPrevSibling`: the element before the first occurrence, undefined for the first element or an absent item. */
  function GetPrevSibling<T(==)>(a: seq<T>, item: T): (r: Option<T>)
    ensures item !in a ==> r == None
    ensures forall i :: 0 <= i < |a| && a[i] == item && item !in a[..i] ==>
      r == if i == 0 then None else Some(a[i - 1])
  {
    GetSibling(a, item, -1)
  }

  /**
   * `getNextSibling`: the element after the first occurrence, undefined for the
   * last element; for an absent item, indexOf is -1 and the result is `array[0]`.
   */
  function GetNextSibling<T(==)>(a: seq<T>, item: T): (r: Option<T>)
    ensures item !in a ==> r == if a == [] then None else Some(a[0])
    ensures forall i :: 0 <= i < |a| && a[i] == item && item !in a[..i] ==>
      r == if i == |a| - 1 then None else Some(a[i + 1])
  {
    GetSibling(a, item, 1)
  }

  predicate NoDuplicates<T(==)>(a: seq<T>) {
    forall i, j :: 0 <= i < j < |a| ==> a[i] != a[j]
  }

  lemma FirstOccurrenceUnique<T>(a: seq<T>, i: int, j: int)
    requires NoDuplicates(a) && 0 <= i < |a| && 0 <= j < |a| && a[i] == a[j]
    ensures i == j
  {
  }

  /** In an array without duplicates, previous and next sibling undo each other. */
  lemma {:induction false} SiblingsInverse<T>(a: seq<T>, x: T, y: T)
    requires NoDuplicates(a)
    ensures GetPrevSibling(a, x) == Some(y) ==> GetNextSibling(a, y) == Some(x)
    ensures x in a && GetNextSibling(a, x) == Some(y) ==> GetPrevSibling(a, y) == Some(x)
  {
    var i := IndexOf(a, x);
    if GetPrevSibling(a, x) == Some(y) {
      assert y == a[i - 1];
      var j := IndexOf(a, y);
      FirstOccurrenceUnique(a, j, i - 1);
    }
    if x in a && GetNextSibling(a, x) == Some(y) {
      assert y == a[i + 1];
      var j := IndexOf(a, y);
      FirstOccurrenceUnique(a, j, i + 1);
    }
  }

  // ---------------------------------------------------------------------
  // makeArrayUnique
  // ---------------------------------------------------------------------

  /**
   * `Array.from(new Set(array))`: a Set keeps insertion order and ignores
   * repeated insertions, so each value appears once, where it first occurred.
   */
  function MakeArrayUnique<T(==)>(a: seq<T>): (r: seq<T>)
    ensures UniqueOf(a, r)
  {
    if a == [] then []
    else
      var prefix := a[..|a| - 1];
      var last := a[|a| - 1];
      var p := MakeArrayUnique(prefix);
      assert a == prefix + [last];
      UniqueExtend(prefix, last, p);
      if last in p then p else p + [last]
  }

  /** `r` holds every value of `a` once, in the order of their first occurrences in `a`. */
  ghost predicate UniqueOf<T>(a: seq<T>, r: seq<T>) {
    && NoDuplicates(r)
    && (forall i :: 0 <= i < |r| ==> r[i] in a)
    && (forall i :: 0 <= i < |a| ==> a[i] in r)
    && (forall i, j :: 0 <= i < j < |r| ==> IndexOf(a, r[i]) < IndexOf(a, r[j]))
  }

  lemma UniqueExtend<T>(prefix: seq<T>, last: T, p: seq<T>)
    requires UniqueOf(prefix, p)
    ensures UniqueOf(prefix + [last], if last in p then p else p + [last])
  {
    if last in p {
      UniqueExtendSeen(prefix, last, p);
    } else {
      UniqueExtendNew(prefix, last, p);
    }
  }

  /** First occurrences in `prefix` stay first occurrences in `prefix + [last]`. */
  lemma KeepsIndices<T>(prefix: seq<T>, last: T, p: seq<T>)
    requires forall i :: 0 <= i < |p| ==> p[i] in prefix
    ensures forall i :: 0 <= i < |p| ==> IndexOf(prefix + [last], p[i]) == IndexOf(prefix, p[i])
  {
    forall i | 0 <= i < |p| ensures IndexOf(prefix + [last], p[i]) == IndexOf(prefix, p[i]) {
      IndexOfExtend(prefix, last, p[i]);
    }
  }

  lemma UniqueExtendSeen<T>(prefix: seq<T>, last: T, p: seq<T>)
    requires UniqueOf(prefix, p) && last in p
    ensures UniqueOf(prefix + [last], p)
  {
    var a := prefix + [last];
    KeepsIndices(prefix, last, p);
    forall i | 0 <= i < |a| ensures a[i] in p {
      if i < |prefix| {
        assert a[i] == prefix[i];
      }
    }
  }

  lemma UniqueExtendNew<T>(prefix: seq<T>, last: T, p: seq<T>)
    requires UniqueOf(prefix, p) && last !in p
    ensures UniqueOf(prefix + [last], p + [last])
  {
    var a := prefix + [last];
    var r := p + [last];
    KeepsIndices(prefix, last, p);
    assert last !in prefix;
    IndexOfExtend(prefix, last, last);
    forall i | 0 <= i < |a| ensures a[i] in r {
      if i < |prefix| {
        assert a[i] == prefix[i];
      }
    }
    forall i, j | 0 <= i < j < |r| ensures IndexOf(a, r[i]) < IndexOf(a, r[j]) {
      if j < |p| {
        assert r[i] == p[i] && r[j] == p[j];
      } else {
        assert r[i] == p[i] && r[j] == last;
      }
    }
  }

  lemma IndexOfExtend<T>(a: seq<T>, y: T, x: T)
    ensures x in a ==> IndexOf(a + [y], x) == IndexOf(a, x)
    ensures x !in a && x == y ==> IndexOf(a + [y], x) == |a|
  {
    if x in a {
      var k := IndexOf(a, x);
      assert (a + [y])[k] == x;
      assert (a + [y])[..k] == a[..k];
    } else if x == y {
      assert (a + [y])[|a|] == x;
    }
  }

  // ---------------------------------------------------------------------
  // getCountWithLimit
  // ---------------------------------------------------------------------

  /** `array.filter(filterFn)`: the passing elements, each as often as in the input. */
  function Filter<T>(a: seq<T>, f: T -> bool): (r: seq<T>)
    ensures |r| <= |a|
    ensures forall i :: 0 <= i < |r| ==> r[i] in a && f(r[i])
    ensures forall i :: 0 <= i < |a| && f(a[i]) ==> a[i] in r
    ensures forall i :: 0 <= i < |a| ==> multiset(r)[a[i]] == if f(a[i]) then multiset(a)[a[i]] else 0
  {
    if a == [] then []
    else
      var ft := Filter(a[1..], f);
      FilterCons(a[0], a[1..], ft, f);
      assert a == [a[0]] + a[1..];
      (if f(a[0]) then [a[0]] else []) + ft
  }

  /** One step of `Filter`: the head is kept or dropped and the filtered tail follows, with its properties intact. */
  lemma FilterCons<T>(x: T, t: seq<T>, ft: seq<T>, f: T -> bool)
    requires |ft| <= |t|
    requires forall i :: 0 <= i < |ft| ==> ft[i] in t && f(ft[i])
    requires forall i :: 0 <= i < |t| && f(t[i]) ==> t[i] in ft
    requires forall i :: 0 <= i < |t| ==> multiset(ft)[t[i]] == if f(t[i]) then multiset(t)[t[i]] else 0
    ensures var a, r := [x] + t, (if f(x) then [x] else []) + ft;
      |r| <= |a| &&
      (forall i :: 0 <= i < |r| ==> r[i] in a && f(r[i])) &&
      (forall i :: 0 <= i < |a| && f(a[i]) ==> a[i] in r) &&
      (forall i :: 0 <= i < |a| ==> multiset(r)[a[i]] == if f(a[i]) then multiset(a)[a[i]] else 0)
  {
    var a, r := [x] + t, (if f(x) then [x] else []) + ft;
    forall i | 0 <= i < |a| ensures multiset(r)[a[i]] == if f(a[i]) then multiset(a)[a[i]] else 0 {
      if i > 0 {
        assert a[i] == t[i - 1];
      }
    }
    forall i | 0 <= i < |r| ensures r[i] in a && f(r[i]) {
      if !f(x) || i > 0 {
        assert r[i] == ft[if f(x) then i - 1 else i];
      }
    }
    forall i | 0 <= i < |a| && f(a[i]) ensures a[i] in r {
      if i > 0 {
        assert a[i] == t[i - 1];
      }
    }
  }

  /** Filtering keeps the order: a concatenation is filtered part by part. */
  lemma {:induction false} FilterAppend<T>(a: seq<T>, b: seq<T>, f: T -> bool)
    ensures Filter(a + b, f) == Filter(a, f) + Filter(b, f)
  {
    if a == [] {
      assert a + b == b;
    } else {
      assert (a + b)[1..] == a[1..] + b;
      FilterAppend(a[1..], b, f);
    }
  }

  /** The positions of the elements that pass the filter. */
  function PassingIndices<T>(a: seq<T>, f: T -> bool): set<int>
  {
    set i | 0 <= i < |a| && f(a[i])
  }

  /** The filtered array is as long as the number of positions that pass the filter. */
  lemma {:induction false} FilterCount<T>(a: seq<T>, f: T -> bool)
    ensures |Filter(a, f)| == |PassingIndices(a, f)|
  {
    if a != [] {
      var n := |a| - 1;
      var p := a[..n];
      assert a == p + [a[n]];
      FilterCount(p, f);
      FilterSnoc(p, a[n], f);
      PassingSnoc(p, a[n], f);
    }
  }

  /** An element appended to the input adds one element to the result exactly when it passes. */
  lemma FilterSnoc<T>(p: seq<T>, x: T, f: T -> bool)
    ensures |Filter(p + [x], f)| == |Filter(p, f)| + (if f(x) then 1 else 0)
  {
    FilterAppend(p, [x], f);
    assert [x][1..] == [];
  }

  /** An element appended to the input adds its position exactly when it passes. */
  lemma PassingSnoc<T>(p: seq<T>, x: T, f: T -> bool)
    ensures |PassingIndices(p + [x], f)| == |PassingIndices(p, f)| + (if f(x) then 1 else 0)
  {
    var n := |p|;
    assert n !in PassingIndices(p, f);
    if f(x) {
      assert PassingIndices(p + [x], f) == PassingIndices(p, f) + {n};
    } else {
      assert PassingIndices(p + [x], f) == PassingIndices(p, f);
    }
  }

  /**
   * `getCountWithLimit(array, filterFn, limit = 99)`: the number of passing
   * elements as text, `"<limit>+"` when a non-zero limit is exceeded, and the
   * empty string when nothing passes.
   */
  function GetCountWithLimit<T>(a: seq<T>, f: T -> bool, limit: int := 99): (r: string)
    ensures var c := |Filter(a, f)|;
      (limit != 0 && c > limit ==> r == Numbers.IntToString(limit) + "+")
      && (!(limit != 0 && c > limit) && c > 0 ==> r == Numbers.NatToString(c))
      && (!(limit != 0 && c > limit) && c == 0 ==> r == "")
  {
    var count := |Filter(a, f)|;
    if limit != 0 && count > limit then Numbers.IntToString(limit) + "+"
    else if count > 0 then Numbers.NatToString(count)
    else ""
  }

  /**
   * Read back with a non-negative limit: empty exactly when nothing passes,
   * otherwise the count itself, or the limit followed by '+' when it is exceeded.
   */
  lemma {:induction false} CountWithLimitReadsBack<T>(a: seq<T>, f: T -> bool, limit: int)
    requires limit >= 0
    ensures var r, c := GetCountWithLimit(a, f, limit), |Filter(a, f)|;
      && (r == "" <==> c == 0)
      && (0 < c && (limit == 0 || c <= limit) ==> Numbers.AllDigits(r) && Numbers.ParseNat(r) == c)
      && (limit != 0 && c > limit ==> r[|r| - 1] == '+' && Numbers.AllDigits(r[..|r| - 1])
                                       && Numbers.ParseNat(r[..|r| - 1]) == limit)
  {
    var r, c := GetCountWithLimit(a, f, limit), |Filter(a, f)|;
    if limit != 0 && c > limit {
      Numbers.ParseNatOfNatToString(limit);
      assert r[..|r| - 1] == Numbers.NatToString(limit);
    } else if c > 0 {
      Numbers.ParseNatOfNatToString(c);
    }
  }

  // ---------------------------------------------------------------------
  // reduceObjectArrayToObject
  // ---------------------------------------------------------------------

  /** The last index whose object holds key `k`, or -1. */
  function LastHolder<V>(a: seq<Option<map<string, V>>>, k: string): (i: int)
    ensures -1 <= i < |a|
    ensures i >= 0 ==> a[i].Some? && k in a[i].value
    ensures forall j :: i < j < |a| ==> a[j].None? || k !in a[j].value
  {
    if a == [] then -1
    else if a[|a| - 1].Some? && k in a[|a| - 1].value then |a| - 1
    else LastHolder(a[..|a| - 1], k)
  }

  /**
   * `array.reduce((acc, val) => ({ ...acc, ...val }), {})`: merge from left to
   * right, later keys overriding earlier ones; spreading `undefined` adds nothing.
   */
  function ReduceObjectArrayToObject<V>(a: seq<Option<map<string, V>>>): (r: map<string, V>)
    ensures forall k :: k in r <==> LastHolder(a, k) >= 0
    ensures forall k :: k in r ==> r[k] == a[LastHolder(a, k)].value[k]
  {
    if a == [] then map[]
    else
      var acc := ReduceObjectArrayToObject(a[..|a| - 1]);
      match a[|a| - 1]
      case None => acc
      case Some(m) => acc + m
  }

  lemma MergeTwo()
    ensures ReduceObjectArrayToObject([Some(map["a" := "foo"]), Some(map["b" := "bar"])]) == map["a" := "foo", "b" := "bar"]
  {
    var a := [Some(map["a" := "foo"]), Some(map["b" := "bar"])];
    assert a[..1][..0] == [];
    assert a[..1] == [Some(map["a" := "foo"])];
  }

  lemma MergeThree()
    ensures ReduceObjectArrayToObject([Some(map["a" := "foo"]), Some(map["b" := "bar"]), None]) == map["a" := "foo", "b" := "bar"]
  {
    var a := [Some(map["a" := "foo"]), Some(map["b" := "bar"]), None];
    MergeTwo();
    assert a[..2] == [Some(map["a" := "foo"]), Some(map["b" := "bar"])];
  }

  /** The example of the tests: {a: 'foo'}, {b: 'bar'}, undefined, {a: 'foobar'} merge to {a: 'foobar', b: 'bar'}. */
  lemma MergeExample()
    ensures ReduceObjectArrayToObject([Some(map["a" := "foo"]), Some(map["b" := "bar"]), None, Some(map["a" := "foobar"])])
         == map["a" := "foobar", "b" := "bar"]
  {
    var a := [Some(map["a" := "foo"]), Some(map["b" := "bar"]), None, Some(map["a" := "foobar"])];
    MergeThree();
    assert a[..3] == [Some(map["a" := "foo"]), Some(map["b" := "bar"]), None];
    var m := map["a" := "foo", "b" := "bar"] + map["a" := "foobar"];
    assert m == map["a" := "foobar", "b" := "bar"];
  }

  // ---------------------------------------------------------------------
  // flatten
  // ---------------------------------------------------------------------

  /** `array.reduce((acc, val) => [...acc, ...val], [])`: concatenation from the left. */
  function Flatten<T>(a: seq<seq<T>>): (r: seq<T>)
    ensures |r| == TotalLength(a)
  {
    if a == [] then [] else Flatten(a[..|a| - 1]) + a[|a| - 1]
  }

  function TotalLength<T>(a: seq<seq<T>>): nat
  {
    if a == [] then 0 else TotalLength(a[..|a| - 1]) + |a[|a| - 1]|
  }

  /** Flattening a concatenation flattens the parts; the length is the sum of the inner lengths. */
  lemma {:induction false} FlattenAppend<T>(a: seq<seq<T>>, b: seq<seq<T>>)
    ensures Flatten(a + b) == Flatten(a) + Flatten(b)
    ensures |Flatten(a)| == TotalLength(a)
  {
    if b != [] {
      assert (a + b)[..|a + b| - 1] == a + b[..|b| - 1];
      FlattenAppend(a, b[..|b| - 1]);
    } else {
      assert a + b == a;
      if a != [] {
        FlattenAppend(a[..|a| - 1], []);
      }
    }
  }

  /** Every element of the result comes from one of the inner arrays and vice versa. */
  lemma {:induction false} FlattenMembers<T>(a: seq<seq<T>>, x: T)
    ensures x in Flatten(a) <==> exists i :: 0 <= i < |a| && x in a[i]
  {
    if a != [] {
      FlattenMembers(a[..|a| - 1], x);
      if x in Flatten(a[..|a| - 1]) {
        var i :| 0 <= i < |a| - 1 && x in a[..|a| - 1][i];
        assert x in a[i];
      }
      if exists i :: 0 <= i < |a| && x in a[i] {
        var i :| 0 <= i < |a| && x in a[i];
        if i < |a| - 1 {
          assert x in a[..|a| - 1][i];
        }
      }
    }
  }

  /** Index of element `j` of block `w` when every block has length `k`. */
  function Slot(w: nat, k: nat, j: nat): nat
  {
    w * k + j
  }

  /** Flattening blocks of the same length `k`: element `j` of block `w` lands at index `w * k + j`. */
  lemma FlattenUniform<T>(a: seq<seq<T>>, k: nat)
    requires forall w :: 0 <= w < |a| ==> |a[w]| == k
    ensures |Flatten(a)| == |a| * k
    ensures forall w: nat, j: nat :: w < |a| && j < k ==>
      Slot(w, k, j) < |Flatten(a)| && Flatten(a)[Slot(w, k, j)] == a[w][j]
  {
    FlattenLength(a, k);
    forall w: nat, j: nat | w < |a| && j < k
      ensures Slot(w, k, j) < |Flatten(a)| && Flatten(a)[Slot(w, k, j)] == a[w][j]
    {
      FlattenBlock(a, k, w, j);
    }
  }

  lemma {:induction false} FlattenLength<T>(a: seq<seq<T>>, k: nat)
    requires forall w :: 0 <= w < |a| ==> |a[w]| == k
    ensures |Flatten(a)| == |a| * k
  {
    if a != [] {
      FlattenLength(a[..|a| - 1], k);
      Distributes(|a| - 1, k);
    }
  }

  lemma {:induction false} FlattenBlock<T>(a: seq<seq<T>>, k: nat, w: int, j: int)
    requires forall v :: 0 <= v < |a| ==> |a[v]| == k
    requires 0 <= w < |a| && 0 <= j < k
    ensures w * k + j < |Flatten(a)| && Flatten(a)[w * k + j] == a[w][j]
  {
    var n := |a|;
    var p := a[..n - 1];
    FlattenLength(p, k);
    assert Flatten(a) == Flatten(p) + a[n - 1];
    BlockBound(n - 1, n, k);
    if w < n - 1 {
      BlockBound(w, n - 1, k);
      FlattenBlock(p, k, w, j);
    }
  }

  lemma BlockBound(w: int, m: int, k: nat)
    requires 0 <= w < m
    ensures w * k + k <= m * k
  {
    MulMonotone(w + 1, m, k);
    Distributes(w, k);
  }

  lemma MulMonotone(x: int, y: int, k: nat)
    requires x <= y
    ensures x * k <= y * k
  {
  }

  lemma Distributes(w: int, k: int)
    ensures (w + 1) * k == w * k + k
  {
  }
}
