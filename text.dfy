/**
 * String primitives the helpers are built from: `String.prototype.split` on a
 * one-character separator, `Array.prototype.join`, and ASCII case mapping.
 */
module Text {

  /** `s.split(c)` for a one-character separator: the pieces between occurrences of `c`. */
  function Split(s: string, c: char): (r: seq<string>)
    ensures |r| >= 1
  {
    if s == [] then [""]
    else
      var rest := Split(s[1..], c);
      if s[0] == c then [""] + rest
      else [[s[0]] + rest[0]] + rest[1..]
  }

  /** No piece of a split contains the separator. */
  lemma {:induction false} SplitPiecesOmitSeparator(s: string, c: char)
    ensures forall i :: 0 <= i < |Split(s, c)| ==> c !in Split(s, c)[i]
  {
    if s != [] {
      SplitPiecesOmitSeparator(s[1..], c);
      var rest := Split(s[1..], c);
      if s[0] != c {
        assert c !in rest[0];
        forall i | 0 <= i < |Split(s, c)| ensures c !in Split(s, c)[i] {
          if i > 0 {
            assert Split(s, c)[i] == rest[i];
          }
        }
      }
    }
  }

  /** `parts.join(sep)`. */
  function Join(parts: seq<string>, sep: string): string
  {
    if parts == [] then ""
    else if |parts| == 1 then parts[0]
    else parts[0] + sep + Join(parts[1..], sep)
  }

  /** Joining the pieces of a split with the separator gives back the string. */
  lemma {:induction false} JoinOfSplit(s: string, c: char)
    ensures Join(Split(s, c), [c]) == s
  {
    if s != [] {
      var rest := Split(s[1..], c);
      JoinOfSplit(s[1..], c);
      if s[0] == c {
        assert s == [c] + s[1..];
      } else {
        JoinFirstCons(s[0], rest[0], rest[1..], [c]);
        assert [rest[0]] + rest[1..] == rest;
        assert s == [s[0]] + s[1..];
      }
    }
  }

  /** A character prepended to the first part comes out in front of the join. */
  lemma JoinFirstCons(x: char, first: string, more: seq<string>, sep: string)
    ensures Join([[x] + first] + more, sep) == [x] + Join([first] + more, sep)
  {
    var a := [[x] + first] + more;
    var b := [first] + more;
    assert a[1..] == more && b[1..] == more;
  }

  /** A string without the separator is one piece. */
  lemma {:induction false} SplitWithoutSeparator(s: string, c: char)
    requires c !in s
    ensures Split(s, c) == [s]
  {
    if s != [] {
      SplitWithoutSeparator(s[1..], c);
      assert s == [s[0]] + s[1..];
    }
  }

  /** Splitting at the first separator. */
  lemma {:induction false} SplitAtFirst(a: string, b: string, c: char)
    requires c !in a
    ensures Split(a + [c] + b, c) == [a] + Split(b, c)
  {
    var s := a + [c] + b;
    if a == [] {
      assert s[1..] == b;
    } else {
      assert s[1..] == a[1..] + [c] + b;
      SplitAtFirst(a[1..], b, c);
      assert [a[0]] + a[1..] == a;
    }
  }

  /** Splitting undoes joining when no part contains the separator. */
  lemma {:induction false} SplitOfJoin(parts: seq<string>, c: char)
    requires |parts| >= 1
    requires forall i :: 0 <= i < |parts| ==> c !in parts[i]
    ensures Split(Join(parts, [c]), c) == parts
  {
    if |parts| == 1 {
      SplitWithoutSeparator(parts[0], c);
    } else {
      SplitOfJoin(parts[1..], c);
      SplitAtFirst(parts[0], Join(parts[1..], [c]), c);
      assert [parts[0]] + parts[1..] == parts;
    }
  }

  /** Splitting around one occurrence of the separator concatenates the splits of both sides. */
  lemma {:induction false} SplitAppend(a: string, b: string, c: char)
    ensures Split(a + [c] + b, c) == Split(a, c) + Split(b, c)
  {
    if a == [] {
      assert a + [c] + b == [c] + b;
      SplitCons(c, b, c);
    } else {
      var x, t := a[0], a[1..];
      SplitAppend(t, b, c);
      assert Split(a + [c] + b, c) == Split([x] + (t + [c] + b), c) by {
        assert a + [c] + b == [x] + (t + [c] + b);
      }
      assert Split(a, c) == Split([x] + t, c) by {
        assert a == [x] + t;
      }
      SplitConsStep(x, t, b, c);
    }
  }

  /** The inductive step of `SplitAppend`, for a string starting with `x`. */
  lemma SplitConsStep(x: char, t: string, b: string, c: char)
    requires Split(t + [c] + b, c) == Split(t, c) + Split(b, c)
    ensures Split([x] + (t + [c] + b), c) == Split([x] + t, c) + Split(b, c)
  {
    SplitCons(x, t + [c] + b, c);
    SplitCons(x, t, c);
    StepAlgebra(x, c, Split(t, c), Split(b, c));
  }

  /** The sequence algebra behind `SplitConsStep`, stated without `Split`. */
  lemma StepAlgebra(x: char, c: char, ra: seq<string>, rb: seq<string>)
    requires |ra| >= 1
    ensures (if x == c then [""] + (ra + rb) else [[x] + (ra + rb)[0]] + (ra + rb)[1..])
      == (if x == c then [""] + ra else [[x] + ra[0]] + ra[1..]) + rb
  {
    if x != c {
      ExtendFirst([x], ra, rb);
    } else {
      assert [""] + (ra + rb) == ([""] + ra) + rb;
    }
  }

  /** One step of `Split`: the first character either ends a piece or joins the first piece. */
  lemma SplitCons(x: char, s: string, c: char)
    ensures Split([x] + s, c) ==
      if x == c then [""] + Split(s, c)
      else [[x] + Split(s, c)[0]] + Split(s, c)[1..]
  {
    assert ([x] + s)[1..] == s;
  }

  lemma ExtendFirst(x: string, ra: seq<string>, rb: seq<string>)
    requires |ra| >= 1
    ensures [x + (ra + rb)[0]] + (ra + rb)[1..] == ([x + ra[0]] + ra[1..]) + rb
  {
    assert (ra + rb)[0] == ra[0];
    assert (ra + rb)[1..] == ra[1..] + rb;
  }

  /** The ASCII upper case of a character; other characters are unchanged. */
  function Upper(c: char): char
  {
    if 'a' <= c <= 'z' then (c as int - 32) as char else c
  }

  /** The ASCII lower case of a character; other characters are unchanged. */
  function Lower(c: char): char
  {
    if 'A' <= c <= 'Z' then (c as int + 32) as char else c
  }

  predicate IsLowerLetter(c: char) {
    'a' <= c <= 'z'
  }

  /** Case mapping only moves letters between the two cases and keeps spaces. */
  lemma CaseLaws(c: char)
    ensures Upper(Upper(c)) == Upper(c) && Lower(Lower(c)) == Lower(c)
    ensures Upper(Lower(c)) == Upper(c) && Lower(Upper(c)) == Lower(c)
    ensures Upper(c) == ' ' <==> c == ' '
    ensures Lower(c) == ' ' <==> c == ' '
    ensures !IsLowerLetter(Upper(c))
  {
  }

  /** `s.toLowerCase()` on ASCII. */
  function LowerString(s: string): string
  {
    seq(|s|, i requires 0 <= i < |s| => Lower(s[i]))
  }

  /** Joining a first part with at least one more part. */
  lemma JoinCons(first: string, more: seq<string>, sep: string)
    requires |more| >= 1
    ensures Join([first] + more, sep) == first + sep + Join(more, sep)
  {
    assert ([first] + more)[1..] == more;
  }
}
