/**
 * String helpers (src/strings/index.ts): title case, pascal to camel case,
 * initials, ordinal suffixes and filter-and-join. Case mapping is ASCII.
 */
module Strings {
  import opened Text
  import Numbers

  // ---------------------------------------------------------------------
  // toTitleCase
  // ---------------------------------------------------------------------

  /** The mapping applied to each word: first character upper case, the rest lower case. */
  function TitleWord(w: string): string
  {
    if w == [] then "" else [Upper(w[0])] + LowerString(w[1..])
  }

  function TitleWords(words: seq<string>): seq<string>
  {
    seq(|words|, i requires 0 <= i < |words| => TitleWord(words[i]))
  }

  /** `str.split(' ').map(titleWord).join(' ')`. */
  function ToTitleCase(s: string): (r: string)
    ensures r == TitleFrom(s, true)
  {
    ToTitleCaseScans(s);
    Join(TitleWords(Split(s, ' ')), " ")
  }

  /**
   * Reference definition, one character at a time: a space stays a space, the
   * first character of a word is upper-cased (`atStart` says whether the scan is
   * at a word start) and every other character is lower-cased.
   */
  function TitleFrom(s: string, atStart: bool): string
  {
    if s == [] then ""
    else if s[0] == ' ' then " " + TitleFrom(s[1..], true)
    else [if atStart then Upper(s[0]) else Lower(s[0])] + TitleFrom(s[1..], false)
  }

  /** How a word is cased when it may continue one that started earlier. */
  function WordCase(w: string, atStart: bool): string
  {
    if atStart then TitleWord(w) else LowerString(w)
  }

  function CasePieces(pieces: seq<string>, atStart: bool): seq<string>
    requires |pieces| >= 1
  {
    [WordCase(pieces[0], atStart)] + TitleWords(pieces[1..])
  }

  lemma TitleWordsFromStart(p: seq<string>)
    requires |p| >= 1
    ensures TitleWords(p) == CasePieces(p, true)
  {
  }

  lemma WordCaseCons(x: char, w: string, atStart: bool)
    ensures WordCase([x] + w, atStart) == [if atStart then Upper(x) else Lower(x)] + LowerString(w)
  {
    assert ([x] + w)[1..] == w;
  }

  lemma ToTitleCaseScans(s: string)
    ensures Join(TitleWords(Split(s, ' ')), " ") == TitleFrom(s, true)
  {
    PiecesScan(s, true);
    TitleWordsFromStart(Split(s, ' '));
  }

  /** The word-level pipeline and the character scan agree, from any scan state. */
  lemma {:induction false} PiecesScan(s: string, atStart: bool)
    ensures Join(CasePieces(Split(s, ' '), atStart), " ") == TitleFrom(s, atStart)
  {
    if s != [] {
      assert s == [s[0]] + s[1..];
      SplitCons(s[0], s[1..], ' ');
      PiecesScan(s[1..], s[0] == ' ');
      if s[0] == ' ' {
        CaseSpaceStep(Split(s[1..], ' '), atStart);
      } else {
        CaseLetterStep(s[0], Split(s[1..], ' '), atStart);
      }
    }
  }

  /** A space closes a piece: the remaining pieces are cased from a word start. */
  lemma CaseSpaceStep(rest: seq<string>, atStart: bool)
    requires |rest| >= 1
    ensures Join(CasePieces([""] + rest, atStart), " ") == " " + Join(CasePieces(rest, true), " ")
  {
    var p := [""] + rest;
    assert p[0] == "" && p[1..] == rest;
    assert WordCase("", atStart) == "";
    TitleWordsFromStart(rest);
    JoinCons("", TitleWords(rest), " ");
  }

  /** Any other character joins the first piece, cased by the scan state. */
  lemma CaseLetterStep(x: char, rest: seq<string>, atStart: bool)
    requires |rest| >= 1
    ensures Join(CasePieces([[x] + rest[0]] + rest[1..], atStart), " ") ==
      [if atStart then Upper(x) else Lower(x)] + Join(CasePieces(rest, false), " ")
  {
    var p := [[x] + rest[0]] + rest[1..];
    var c := if atStart then Upper(x) else Lower(x);
    assert p[0] == [x] + rest[0] && p[1..] == rest[1..];
    WordCaseCons(x, rest[0], atStart);
    JoinFirstCons(c, LowerString(rest[0]), TitleWords(rest[1..]), " ");
  }

  /** The output has the input's length and its spaces in the same places. */
  lemma {:induction false} TitleKeepsShape(s: string, atStart: bool)
    ensures |TitleFrom(s, atStart)| == |s|
    ensures forall i :: 0 <= i < |s| ==> (TitleFrom(s, atStart)[i] == ' ' <==> s[i] == ' ')
  {
    if s != [] {
      TitleKeepsShape(s[1..], s[0] == ' ');
      CaseLaws(s[0]);
      var r := TitleFrom(s, atStart);
      forall i | 1 <= i < |s| ensures (r[i] == ' ' <==> s[i] == ' ') {
        assert r[i] == TitleFrom(s[1..], s[0] == ' ')[i - 1];
      }
    }
  }

  /**
   * Character by character: a space stays, a character after a space or at the
   * start is upper-cased, and every other character is lower-cased.
   */
  lemma {:induction false} TitleCaseAt(s: string, i: int)
    requires 0 <= i < |s|
    ensures |ToTitleCase(s)| == |s| && ToTitleCase(s)[i] ==
      if s[i] == ' ' then ' ' else if i == 0 || s[i - 1] == ' ' then Upper(s[i]) else Lower(s[i])
  {
    TitleKeepsShape(s, true);
    TitleFromAt(s, true, i);
  }

  lemma {:induction false} TitleFromAt(s: string, atStart: bool, i: int)
    requires 0 <= i < |s|
    ensures |TitleFrom(s, atStart)| == |s| && TitleFrom(s, atStart)[i] ==
      if s[i] == ' ' then ' '
      else if (if i == 0 then atStart else s[i - 1] == ' ') then Upper(s[i]) else Lower(s[i])
  {
    TitleKeepsShape(s, atStart);
    if i > 0 {
      TitleFromAt(s[1..], s[0] == ' ', i - 1);
      TitleKeepsShape(s[1..], s[0] == ' ');
    }
  }

  /** Title-casing twice is title-casing once. */
  lemma {:induction false} TitleIdempotent(s: string, atStart: bool)
    ensures TitleFrom(TitleFrom(s, atStart), atStart) == TitleFrom(s, atStart)
  {
    if s != [] {
      TitleIdempotent(s[1..], s[0] == ' ');
      CaseLaws(s[0]);
      var r := TitleFrom(s, atStart);
      assert r[1..] == TitleFrom(s[1..], s[0] == ' ');
    }
  }

  lemma ToTitleCaseIdempotent(s: string)
    ensures ToTitleCase(ToTitleCase(s)) == ToTitleCase(s)
  {
    TitleIdempotent(s, true);
  }

  /** The examples of the tests: 'string' and 'STRING' give 'String'. */
  lemma TitleCaseExamples()
    ensures ToTitleCase("") == ""
    ensures ToTitleCase("string") == "String"
    ensures ToTitleCase("String") == "String"
    ensures ToTitleCase("STRING") == "String"
  {
    TitleCaseOfString("string");
    TitleCaseOfString("String");
    TitleCaseOfString("STRING");
  }

  /** Inside a word, the scan lower-cases every character. */
  lemma {:induction false} TitleInsideWord(s: string)
    requires ' ' !in s
    ensures TitleFrom(s, false) == LowerString(s)
  {
    if s != [] {
      TitleInsideWord(s[1..]);
      assert LowerString(s) == [Lower(s[0])] + LowerString(s[1..]);
    }
  }

  /** Each spelling of "string" in the test table comes out as "String". */
  lemma TitleCaseOfString(t: string)
    requires t == "string" || t == "String" || t == "STRING"
    ensures ToTitleCase(t) == "String"
  {
    assert t == [t[0]] + t[1..];
    TitleFromExample(t[0], t[1..]);
  }

  /** One word spelled 'string' in either case, after either first letter, is title-cased to 'String'. */
  lemma TitleFromExample(first: char, s: string)
    requires first == 's' || first == 'S'
    requires s == "tring" || s == "TRING"
    ensures TitleFrom([first] + s, true) == "String"
  {
    var t := [first] + s;
    assert t[1..] == s;
    TitleInsideWord(s);
    assert LowerString(s) == "tring";
  }

  lemma TitleCaseTwoWords()
    ensures ToTitleCase("foo bar") == "Foo Bar"
  {
    assert TitleFrom("bar", true) == "Bar";
    assert TitleFrom(" bar", false) == " Bar";
    assert TitleFrom("foo bar", true) == "Foo Bar";
  }

  // ---------------------------------------------------------------------
  // pascalToCamelCase
  // ---------------------------------------------------------------------

  /** Strings shorter than three characters are lower-cased whole; otherwise only the first character is. */
  function PascalToCamelCase(s: string): (r: string)
    ensures |r| == |s|
    ensures |s| < 3 ==> forall i :: 0 <= i < |s| ==> r[i] == Lower(s[i])
    ensures |s| >= 3 ==> r[0] == Lower(s[0]) && r[1..] == s[1..]
  {
    if |s| < 3 then LowerString(s) else [Lower(s[0])] + s[1..]
  }

  lemma PascalToCamelCaseIdempotent(s: string)
    ensures PascalToCamelCase(PascalToCamelCase(s)) == PascalToCamelCase(s)
  {
    var r := PascalToCamelCase(s);
    var rr := PascalToCamelCase(r);
    forall i | 0 <= i < |s| ensures rr[i] == r[i] {
      CaseLaws(s[i]);
      if |s| >= 3 && i > 0 {
        assert rr[1..][i - 1] == r[1..][i - 1];
      }
    }
  }

  /** The examples of the tests. */
  lemma PascalExamples()
    ensures PascalToCamelCase("") == ""
    ensures PascalToCamelCase("Foo") == "foo"
    ensures PascalToCamelCase("FooBar") == "fooBar"
    ensures PascalToCamelCase("Id") == "id" && PascalToCamelCase("ID") == "id" && PascalToCamelCase("CV") == "cv"
  {
    assert PascalToCamelCase("Foo")[1..] == "oo";
    assert PascalToCamelCase("FooBar")[1..] == "ooBar";
  }

  // ---------------------------------------------------------------------
  // getInitials
  // ---------------------------------------------------------------------

  function Initial(w: string): string
  {
    if w == [] then "" else [Upper(w[0])]
  }

  function InitialWords(words: seq<string>): seq<string>
  {
    seq(|words|, i requires 0 <= i < |words| => Initial(words[i]))
  }

  /** `str.split(' ').map(initial).join('')`. */
  function GetInitials(s: string): (r: string)
    ensures r == InitialsFrom(s, true)
  {
    InitialsScan(s, true);
    var p := Split(s, ' ');
    assert InitialWords(p) == [Initial(p[0])] + InitialWords(p[1..]);
    Join(InitialWords(p), "")
  }

  /** Reference definition: the upper case of each character that starts a word. */
  function InitialsFrom(s: string, atStart: bool): string
  {
    if s == [] then ""
    else if s[0] == ' ' then InitialsFrom(s[1..], true)
    else (if atStart then [Upper(s[0])] else "") + InitialsFrom(s[1..], false)
  }

  lemma JoinEmptySeparator(first: string, more: seq<string>)
    ensures Join([first] + more, "") == first + Join(more, "")
  {
    var a := [first] + more;
    assert a[1..] == more;
  }

  function InitialPieces(p: seq<string>, atStart: bool): seq<string>
    requires |p| >= 1
  {
    [if atStart then Initial(p[0]) else ""] + InitialWords(p[1..])
  }

  lemma {:induction false} InitialsScan(s: string, atStart: bool)
    ensures Join(InitialPieces(Split(s, ' '), atStart), "") == InitialsFrom(s, atStart)
  {
    if s != [] {
      assert s == [s[0]] + s[1..];
      SplitCons(s[0], s[1..], ' ');
      InitialsScan(s[1..], s[0] == ' ');
      if s[0] == ' ' {
        InitialSpaceStep(Split(s[1..], ' '), atStart);
      } else {
        InitialLetterStep(s[0], Split(s[1..], ' '), atStart);
      }
    }
  }

  /** A space contributes nothing and puts the scan at a word start. */
  lemma InitialSpaceStep(rest: seq<string>, atStart: bool)
    requires |rest| >= 1
    ensures Join(InitialPieces([""] + rest, atStart), "") == Join(InitialPieces(rest, true), "")
  {
    var p := [""] + rest;
    assert p[0] == "" && p[1..] == rest;
    JoinEmptySeparator("", InitialWords(rest));
    assert InitialWords(rest) == InitialPieces(rest, true);
  }

  /** Any other character contributes its upper case when it starts a word. */
  lemma InitialLetterStep(x: char, rest: seq<string>, atStart: bool)
    requires |rest| >= 1
    ensures Join(InitialPieces([[x] + rest[0]] + rest[1..], atStart), "") ==
      (if atStart then [Upper(x)] else "") + Join(InitialPieces(rest, false), "")
  {
    var p := [[x] + rest[0]] + rest[1..];
    var first := if atStart then [Upper(x)] else "";
    assert p[0] == [x] + rest[0] && p[1..] == rest[1..];
    JoinEmptySeparator(first, InitialWords(rest[1..]));
    JoinEmptySeparator("", InitialWords(rest[1..]));
  }

  /** The initials hold no space and no lower-case letter, and at most one character per input character. */
  lemma {:induction false} InitialsShape(s: string, atStart: bool)
    ensures |InitialsFrom(s, atStart)| <= |s|
    ensures forall i :: 0 <= i < |InitialsFrom(s, atStart)| ==>
      InitialsFrom(s, atStart)[i] != ' ' && !IsLowerLetter(InitialsFrom(s, atStart)[i])
  {
    if s != [] {
      InitialsShape(s[1..], s[0] == ' ');
      CaseLaws(s[0]);
    }
  }

  /** The initials of two space-separated texts are the initials of each, one after the other. */
  lemma {:induction false} InitialsOfJoined(s: string, t: string, atStart: bool)
    ensures InitialsFrom(s + " " + t, atStart) == InitialsFrom(s, atStart) + InitialsFrom(t, true)
  {
    if s == [] {
      assert (s + " " + t)[1..] == t;
    } else {
      assert (s + " " + t)[1..] == s[1..] + " " + t;
      InitialsOfJoined(s[1..], t, s[0] == ' ');
    }
  }

  /** After the first character of a word, the scan adds nothing until the next space. */
  lemma {:induction false} InitialsInsideWord(s: string)
    requires ' ' !in s
    ensures InitialsFrom(s, false) == ""
  {
    if s != [] {
      InitialsInsideWord(s[1..]);
    }
  }

  /** A single word contributes the upper case of its first character. */
  lemma WordInitial(s: string)
    requires s != [] && ' ' !in s
    ensures InitialsFrom(s, true) == [Upper(s[0])]
  {
    InitialsInsideWord(s[1..]);
  }

  /** Two words separated by one space give two initials. */
  lemma TwoWordInitials(a: string, b: string)
    requires a != [] && ' ' !in a && b != [] && ' ' !in b
    ensures GetInitials(a + " " + b) == [Upper(a[0]), Upper(b[0])]
  {
    InitialsOfJoined(a, b, true);
    WordInitial(a);
    WordInitial(b);
  }

  /** The examples of the tests: '' gives '', and 'Donald Trump' and 'donald trump' give 'DT'. */
  lemma InitialsExamples()
    ensures GetInitials("") == ""
    ensures GetInitials("Donald Trump") == "DT"
    ensures GetInitials("donald trump") == "DT"
  {
    TwoWordInitials("Donald", "Trump");
    assert "Donald" + " " + "Trump" == "Donald Trump";
    TwoWordInitials("donald", "trump");
    assert "donald" + " " + "trump" == "donald trump";
  }

  // ---------------------------------------------------------------------
  // toOrdinal
  // ---------------------------------------------------------------------

  /**
   * The suffix `toOrdinal` picks from JavaScript's truncating `n % 10` and
   * `n % 100`; for a natural number it is the usual English rule.
   */
  function OrdinalSuffix(n: int): (r: string)
    ensures r in {"st", "nd", "rd", "th"}
    ensures n >= 0 ==> (r == "st" <==> n % 10 == 1 && n % 100 != 11)
    ensures n >= 0 ==> (r == "nd" <==> n % 10 == 2 && n % 100 != 12)
    ensures n >= 0 ==> (r == "rd" <==> n % 10 == 3 && n % 100 != 13)
    ensures n < 0 ==> r == "th"
  {
    var mod10 := Numbers.TruncRem(n, 10);
    var mod100 := Numbers.TruncRem(n, 100);
    if mod10 == 1 && mod100 != 11 then "st"
    else if mod10 == 2 && mod100 != 12 then "nd"
    else if mod10 == 3 && mod100 != 13 then "rd"
    else "th"
  }

  /** `toOrdinal(n)`: the decimal of `n` followed by its suffix. */
  function ToOrdinal(n: int): (r: string)
    ensures |r| == |Numbers.IntToString(n)| + 2
    ensures r[..|r| - 2] == Numbers.IntToString(n) && r[|r| - 2..] == OrdinalSuffix(n)
  {
    Numbers.IntToString(n) + OrdinalSuffix(n)
  }

  /** The suffix only depends on the last two digits. */
  lemma SuffixPeriodic(n: nat)
    ensures OrdinalSuffix(n + 100) == OrdinalSuffix(n)
  {
    assert (n + 100) % 10 == n % 10 && (n + 100) % 100 == n % 100;
  }

  /** The suffixes of the tests, with 13, 111 and a negative number besides. */
  lemma OrdinalExamples()
    ensures OrdinalSuffix(1) == "st" && OrdinalSuffix(2) == "nd" && OrdinalSuffix(3) == "rd" && OrdinalSuffix(4) == "th"
    ensures OrdinalSuffix(11) == "th" && OrdinalSuffix(12) == "th" && OrdinalSuffix(21) == "st"
    ensures OrdinalSuffix(32) == "nd" && OrdinalSuffix(43) == "rd" && OrdinalSuffix(55) == "th"
    ensures OrdinalSuffix(13) == "th" && OrdinalSuffix(111) == "th" && OrdinalSuffix(-1) == "th"
  {
  }

  lemma OrdinalText()
    ensures ToOrdinal(21) == "21st"
  {
    assert Numbers.NatToString(21) == "21" by {
      assert Numbers.NatToString(2) == "2";
    }
  }

  // ---------------------------------------------------------------------
  // filterAndJoin
  // ---------------------------------------------------------------------

  /** An element of the parts array: `string | false | null | undefined`. */
  datatype Part = Str(s: string) | False | Null | Undefined

  /** `Boolean(part)`: only a non-empty string is truthy. */
  predicate Truthy(p: Part) {
    p.Str? && p.s != ""
  }

  /** The strings `parts.filter(Boolean)` keeps, in order. */
  function Kept(parts: seq<Part>): seq<string>
  {
    if parts == [] then []
    else (if Truthy(parts[0]) then [parts[0].s] else []) + Kept(parts[1..])
  }

  /** Exactly the truthy parts are kept. */
  lemma {:induction false} KeptMembers(parts: seq<Part>)
    ensures forall i :: 0 <= i < |Kept(parts)| ==> Truthy(Str(Kept(parts)[i])) && Str(Kept(parts)[i]) in parts
    ensures forall i :: 0 <= i < |parts| && Truthy(parts[i]) ==> parts[i].s in Kept(parts)
  {
    if parts != [] {
      KeptMembers(parts[1..]);
      var k := Kept(parts);
      var head := if Truthy(parts[0]) then [parts[0].s] else [];
      forall i | 0 <= i < |k| ensures Truthy(Str(k[i])) && Str(k[i]) in parts {
        if i >= |head| {
          assert k[i] == Kept(parts[1..])[i - |head|];
        }
      }
      forall i | 0 <= i < |parts| && Truthy(parts[i]) ensures parts[i].s in k {
        if i > 0 {
          assert parts[i] == parts[1..][i - 1];
        }
      }
    }
  }

  /** `parts.filter(Boolean).join(separator)`, the separator defaulting to ", ". */
  function FilterAndJoin(parts: seq<Part>, separator: string := ", "): (r: string)
    ensures Kept(parts) == [] ==> r == ""
    ensures |Kept(parts)| == 1 ==> r == Kept(parts)[0]
    ensures |Kept(parts)| >= 2 ==> r == Kept(parts)[0] + separator + Join(Kept(parts)[1..], separator)
  {
    Join(Kept(parts), separator)
  }

  /**
   * With a one-character separator that no kept part contains, splitting the
   * result at it recovers exactly the kept parts.
   */
  lemma FilterAndJoinSplits(parts: seq<Part>, c: char)
    requires Kept(parts) != []
    requires forall i :: 0 <= i < |parts| && parts[i].Str? ==> c !in parts[i].s
    ensures Split(FilterAndJoin(parts, [c]), c) == Kept(parts)
  {
    var k := Kept(parts);
    KeptMembers(parts);
    forall i | 0 <= i < |k| ensures c !in k[i] {
      var j :| 0 <= j < |parts| && parts[j] == Str(k[i]);
    }
    SplitOfJoin(k, c);
  }

  /** Falsy parts leave no trace: neither an empty piece nor a doubled separator. */
  lemma {:induction false} FalsyPartsVanish(parts: seq<Part>, p: Part, separator: string)
    requires !Truthy(p)
    ensures FilterAndJoin([p] + parts, separator) == FilterAndJoin(parts, separator)
    ensures FilterAndJoin(parts + [p], separator) == FilterAndJoin(parts, separator)
  {
    assert ([p] + parts)[1..] == parts;
    KeptAppend(parts, [p]);
    assert Kept([p]) == [] by {
      assert [p][1..] == [];
    }
    assert Kept(parts) + [] == Kept(parts);
    assert Kept([p] + parts) == [] + Kept(parts);
    assert [] + Kept(parts) == Kept(parts);
  }

  lemma {:induction false} KeptAppend(a: seq<Part>, b: seq<Part>)
    ensures Kept(a + b) == Kept(a) + Kept(b)
  {
    if a != [] {
      assert (a + b)[1..] == a[1..] + b;
      KeptAppend(a[1..], b);
    } else {
      assert a + b == b;
    }
  }

  /** One step of `Kept`. */
  lemma KeptCons(p: Part, rest: seq<Part>)
    ensures Kept([p] + rest) == (if Truthy(p) then [p.s] else []) + Kept(rest)
  {
    assert ([p] + rest)[1..] == rest;
  }

  /** The falsy parts of the test are dropped: ['foo', false, undefined, '', 'bar'] gives 'foo, bar'. */
  lemma FilterAndJoinExample()
    ensures FilterAndJoin([Str("foo"), False, Undefined, Str(""), Str("bar")]) == "foo, bar"
  {
    var p5: seq<Part> := [Str("bar")];
    assert p5 == [Str("bar")] + [];
    KeptCons(Str("bar"), []);
    var p4 := [Str("")] + p5;
    KeptCons(Str(""), p5);
    var p3 := [Undefined] + p4;
    KeptCons(Undefined, p4);
    var p2 := [False] + p3;
    KeptCons(False, p3);
    var p1 := [Str("foo")] + p2;
    KeptCons(Str("foo"), p2);
    assert Kept(p1) == ["foo", "bar"];
    assert [Str("foo"), False, Undefined, Str(""), Str("bar")] == p1;
    JoinCons("foo", ["bar"], ", ");
  }

  /** The separators of the tests: the default ", ", '' and '-'; a single part is returned as it is. */
  lemma FilterAndJoinSeparators()
    ensures FilterAndJoin([Str("foo"), Str("bar")]) == "foo, bar"
    ensures FilterAndJoin([Str("foo"), Str("bar")], "") == "foobar"
    ensures FilterAndJoin([Str("foo"), Str("bar")], "-") == "foo-bar"
    ensures FilterAndJoin([Str("foobar")]) == "foobar"
  {
    var two: seq<Part> := [Str("foo"), Str("bar")];
    KeptCons(Str("bar"), []);
    assert [Str("bar")] == [Str("bar")] + [];
    KeptCons(Str("foo"), [Str("bar")]);
    assert two == [Str("foo")] + [Str("bar")];
    assert Kept(two) == ["foo", "bar"];
    JoinCons("foo", ["bar"], ", ");
    JoinCons("foo", ["bar"], "");
    JoinCons("foo", ["bar"], "-");
    assert Kept([Str("foobar")]) == ["foobar"] by {
      KeptCons(Str("foobar"), []);
      assert [Str("foobar")] == [Str("foobar")] + [];
    }
  }
}
