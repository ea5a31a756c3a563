/**
 * Python text: a `str` is a sequence of code points, surrogates included. Also the
 * decimal rendering of integers and the UTF-16 code units that `\uXXXX` escapes spell.
 */
module PyText {

  type CodePoint = c: int | 0 <= c <= 0x10FFFF
  type Text = seq<CodePoint>

  /** A UTF-16 code unit. */
  type Unit = u: int | 0 <= u <= 0xFFFF

  predicate IsSurrogate(c: int) {
    0xD800 <= c <= 0xDFFF
  }

  predicate SurrogateFree(t: Text) {
    forall i :: 0 <= i < |t| ==> !IsSurrogate(t[i])
  }

  /** The code points of a literal. */
  function Chars(s: string): (t: Text)
    ensures |t| == |s| && SurrogateFree(t)
    ensures forall i :: 0 <= i < |s| ==> t[i] == s[i] as int
  {
    seq(|s|, i requires 0 <= i < |s| => s[i] as int)
  }

  // ---------------------------------------------------------------- decimals

  function Digit(d: int): (c: char)
    requires 0 <= d < 10
    ensures '0' <= c <= '9' && c as int == 48 + d
  {
    (48 + d) as char
  }

  function Digits(n: nat): (s: string)
    ensures |s| > 0 && forall i :: 0 <= i < |s| ==> '0' <= s[i] <= '9'
  {
    if n < 10 then [Digit(n)] else Digits(n / 10) + [Digit(n % 10)]
  }

  /** `str(n)`. */
  function Decimal(n: int): (s: string)
    ensures |s| > 0 && forall i :: 0 <= i < |s| ==> s[i] == '-' || '0' <= s[i] <= '9'
  {
    if n < 0 then "-" + Digits(-n) else Digits(n)
  }

  predicate AllDigits(s: string) {
    s != "" && forall i :: 0 <= i < |s| ==> '0' <= s[i] <= '9'
  }

  /** The number a text of decimal digits denotes. */
  function DecimalValue(s: string): nat
    requires AllDigits(s)
  {
    var n := |s| - 1;
    (s[n] as int - 48) + if n == 0 then 0 else 10 * DecimalValue(s[..n])
  }

  /** The digits of a number denote it, without leading zeros. */
  lemma {:induction false} DigitsRead(n: nat)
    ensures AllDigits(Digits(n)) && DecimalValue(Digits(n)) == n
    ensures n > 0 ==> Digits(n)[0] != '0'
  {
    var s := Digits(n);
    if n >= 10 {
      DigitsRead(n / 10);
      assert s[..|s| - 1] == Digits(n / 10) && s[|s| - 1] == Digit(n % 10);
    }
  }

  lemma {:induction false} DigitsInjective(a: nat, b: nat)
    requires Digits(a) == Digits(b)
    ensures a == b
  {
    var s := Digits(a);
    if a >= 10 || b >= 10 {
      assert |s| >= 2 ==> s[..|s| - 1] + [s[|s| - 1]] == s;
      if a >= 10 && b >= 10 {
        assert Digits(a / 10) == s[..|s| - 1] == Digits(b / 10);
        DigitsInjective(a / 10, b / 10);
        assert Digit(a % 10) == s[|s| - 1] == Digit(b % 10);
      }
    }
  }

  lemma SignShows(n: int)
    ensures Decimal(n)[0] == '-' <==> n < 0
  {
  }

  lemma DecimalInjective(a: int, b: int)
    requires Decimal(a) == Decimal(b)
    ensures a == b
  {
    var s := Decimal(a);
    SignShows(a);
    SignShows(b);
    if a < 0 && b < 0 {
      assert Digits(-a) == s[1..] == Digits(-b);
      DigitsInjective(-a, -b);
    } else if a >= 0 && b >= 0 {
      DigitsInjective(a, b);
    }
  }

  /** Larger numbers have at least as many digits. */
  lemma {:induction false} DigitsMonotone(a: nat, b: nat)
    requires a <= b
    ensures |Digits(a)| <= |Digits(b)|
  {
    if b >= 10 && a >= 10 {
      DigitsMonotone(a / 10, b / 10);
    }
  }

  // ---------------------------------------------------------------- UTF-16

  function Utf16Of(c: CodePoint): (u: seq<Unit>)
    ensures 1 <= |u| <= 2
    ensures |u| == 1 <==> c < 0x10000
    ensures |u| == 1 ==> u[0] == c
    ensures |u| == 2 ==>
              && IsHigh(u[0]) && IsLow(u[1])
              && c == 0x10000 + (u[0] as int - 0xD800) * 0x400 + (u[1] as int - 0xDC00)
  {
    if c < 0x10000 then [c]
    else [0xD800 + (c - 0x10000) / 0x400, 0xDC00 + (c - 0x10000) % 0x400]
  }

  /** The code units of a text; lone surrogates stand for themselves. */
  function Utf16(t: Text): seq<Unit> {
    if t == [] then [] else Utf16Of(t[0]) + Utf16(t[1..])
  }

  predicate IsHigh(c: int) {
    0xD800 <= c <= 0xDBFF
  }

  predicate IsLow(c: int) {
    0xDC00 <= c <= 0xDFFF
  }

  /** No high surrogate is directly followed by a low one; lone surrogates are allowed. */
  predicate PairFree(t: Text) {
    forall i :: 0 <= i < |t| - 1 ==> !(IsHigh(t[i]) && IsLow(t[i + 1]))
  }

  /** The astral character a surrogate pair spells. */
  function Astral(high: CodePoint, low: CodePoint): (c: CodePoint)
    requires IsHigh(high) && IsLow(low)
    ensures Utf16Of(c) == [high, low]
  {
    0x10000 + (high - 0xD800) * 0x400 + (low - 0xDC00)
  }

  /** The text with every surrogate pair replaced by the character it spells. */
  function Joined(t: Text): Text {
    if t == [] then []
    else if |t| >= 2 && IsHigh(t[0]) && IsLow(t[1]) then [Astral(t[0], t[1])] + Joined(t[2..])
    else [t[0]] + Joined(t[1..])
  }

  lemma UnitsCons(c: CodePoint, t: Text)
    ensures Utf16([c] + t) == Utf16Of(c) + Utf16(t)
  {
    assert ([c] + t)[1..] == t;
  }

  lemma ConcatAssociates<T>(a: seq<T>, b: seq<T>, c: seq<T>)
    ensures a + (b + c) == (a + b) + c
  {
  }

  lemma LoneUnits(c: CodePoint)
    requires IsHigh(c) || IsLow(c)
    ensures Utf16Of(c) == [c]
  {
  }

  /** A pair has the units of the character it spells. */
  lemma PairUnits(high: CodePoint, low: CodePoint, t: Text)
    requires IsHigh(high) && IsLow(low)
    ensures Utf16([high] + ([low] + t)) == Utf16([Astral(high, low)] + t)
  {
    hide Utf16, Utf16Of;
    UnitsCons(high, [low] + t);
    UnitsCons(low, t);
    UnitsCons(Astral(high, low), t);
    LoneUnits(high);
    LoneUnits(low);
    ConcatAssociates([high], [low], Utf16(t));
  }

  /** Joining keeps the code units. */
  lemma {:induction false} JoinedKeepsUnits(t: Text)
    ensures Utf16(Joined(t)) == Utf16(t)
  {
    if t == [] {
    } else if |t| >= 2 && IsHigh(t[0]) && IsLow(t[1]) {
      JoinedKeepsUnits(t[2..]);
      hide Utf16;
      PairUnits(t[0], t[1], t[2..]);
      assert t == [t[0]] + ([t[1]] + t[2..]);
      UnitsCons(Astral(t[0], t[1]), t[2..]);
      UnitsCons(Astral(t[0], t[1]), Joined(t[2..]));
    } else {
      JoinedKeepsUnits(t[1..]);
      hide Utf16;
      UnitsCons(t[0], Joined(t[1..]));
      UnitsCons(t[0], t[1..]);
      assert t == [t[0]] + t[1..];
    }
  }

  /** A joined text holds no pair, and its first character is low only if the text's is. */
  lemma {:induction false} JoinedIsPairFree(t: Text)
    ensures PairFree(Joined(t)) && |Joined(t)| <= |t|
    ensures t != [] ==> Joined(t) != [] && (IsLow(Joined(t)[0]) ==> IsLow(t[0]))
  {
    if t == [] {
    } else if |t| >= 2 && IsHigh(t[0]) && IsLow(t[1]) {
      JoinedIsPairFree(t[2..]);
      assert Utf16Of(Astral(t[0], t[1])) == [t[0], t[1]];
    } else {
      JoinedIsPairFree(t[1..]);
    }
  }

  /** Joining changes exactly the texts that hold a pair. */
  lemma {:induction false} JoinedIffPairFree(t: Text)
    ensures Joined(t) == t <==> PairFree(t)
  {
    JoinedIsPairFree(t);
    if t != [] && PairFree(t) {
      assert |t| >= 2 ==> !(IsHigh(t[0]) && IsLow(t[1]));
      assert PairFree(t[1..]);
      JoinedIffPairFree(t[1..]);
    }
  }

  /** Without surrogate pairs, the code units determine the text. */
  lemma {:induction false} Utf16Injective(s: Text, t: Text)
    requires PairFree(s) && PairFree(t) && Utf16(s) == Utf16(t)
    ensures s == t
  {
    if s == [] || t == [] {
      assert |Utf16(s)| == 0 && |Utf16(t)| == 0;
    } else {
      SameHead(s, t);
      var a := Utf16Of(s[0]);
      assert Utf16(s[1..]) == Utf16(s)[|a|..] == Utf16(t)[|a|..] == Utf16(t[1..]);
      assert PairFree(s[1..]) && PairFree(t[1..]);
      Utf16Injective(s[1..], t[1..]);
    }
  }

  /** The first unit is the first character's, and so is the second of an astral one. */
  lemma HeadUnits(t: Text)
    requires t != []
    ensures |Utf16(t)| > 0 && Utf16(t)[0] == Utf16Of(t[0])[0]
    ensures |Utf16Of(t[0])| == 2 ==> |Utf16(t)| > 1 && Utf16(t)[1] == Utf16Of(t[0])[1]
    ensures |Utf16Of(t[0])| == 1 && |Utf16(t)| > 1 ==> |t| > 1 && Utf16(t)[1] == Utf16Of(t[1])[0]
  {
    var rest := Utf16(t[1..]);
    assert Utf16(t) == Utf16Of(t[0]) + rest;
    if |Utf16Of(t[0])| == 1 && |Utf16(t)| > 1 {
      assert rest[0] == Utf16(t)[1];
    }
  }

  /** An astral head and a lone high surrogate cannot begin the same units in a text without pairs. */
  lemma SameHead(s: Text, t: Text)
    requires PairFree(s) && PairFree(t) && Utf16(s) == Utf16(t) && s != [] && t != []
    ensures s[0] == t[0]
  {
    HeadUnits(s);
    HeadUnits(t);
    NotBoth(s, t);
    NotBoth(t, s);
    hide Utf16, PairFree;
    SameUnits(s[0], t[0]);
  }

  lemma SameUnits(a: CodePoint, b: CodePoint)
    requires |Utf16Of(a)| == |Utf16Of(b)| && Utf16Of(a)[0] == Utf16Of(b)[0]
    requires |Utf16Of(a)| == 2 ==> Utf16Of(a)[1] == Utf16Of(b)[1]
    ensures a == b
  {
  }

  lemma NotBoth(s: Text, t: Text)
    requires PairFree(t) && Utf16(s) == Utf16(t) && s != [] && t != []
    ensures !(|Utf16Of(s[0])| == 2 && |Utf16Of(t[0])| == 1)
  {
    HeadUnits(s);
    HeadUnits(t);
    hide Utf16;
  }

  /** The exact law: two texts have the same code units exactly when they join to the same text. */
  lemma SameUnitsIff(s: Text, t: Text)
    ensures Utf16(s) == Utf16(t) <==> Joined(s) == Joined(t)
  {
    JoinedKeepsUnits(s);
    JoinedKeepsUnits(t);
    JoinedIsPairFree(s);
    JoinedIsPairFree(t);
    if Utf16(s) == Utf16(t) {
      Utf16Injective(Joined(s), Joined(t));
    }
  }

  // ---------------------------------------------------------------- order

  /** Python's `<` on strings: lexicographic by code point. */
  predicate TextLess(s: Text, t: Text) {
    t != [] && (s == [] || s[0] < t[0] || (s[0] == t[0] && TextLess(s[1..], t[1..])))
  }

  /** At the first position where the texts differ, s is below t or has ended. */
  ghost predicate DiffersBelow(s: Text, t: Text, i: nat) {
    && i <= |s| && i < |t| && s[..i] == t[..i]
    && (i < |s| ==> s[i] < t[i])
  }

  lemma {:induction false} TextLessIff(s: Text, t: Text)
    ensures TextLess(s, t) <==> exists i: nat :: DiffersBelow(s, t, i)
  {
    forall i: nat | DiffersBelow(s, t, i)
      ensures i > 0 ==> s != [] && t != [] && s[0] == t[0]
    {
      SameStart(s, t, i);
    }
    if s != [] && t != [] && s[0] == t[0] {
      TextLessIff(s[1..], t[1..]);
      if i: nat :| DiffersBelow(s[1..], t[1..], i) {
        assert s[..i + 1] == [s[0]] + s[1..][..i] && t[..i + 1] == [t[0]] + t[1..][..i];
        assert DiffersBelow(s, t, i + 1);
      }
      if i: nat :| DiffersBelow(s, t, i) {
        assert i > 0;
        assert s[1..][..i - 1] == s[..i][1..] && t[1..][..i - 1] == t[..i][1..];
        assert DiffersBelow(s[1..], t[1..], i - 1);
      }
    } else if t != [] && (s == [] || s[0] < t[0]) {
      assert DiffersBelow(s, t, 0);
    }
  }

  lemma SameStart(s: Text, t: Text, i: nat)
    requires DiffersBelow(s, t, i)
    ensures i > 0 ==> s != [] && t != [] && s[0] == t[0]
  {
    if i > 0 {
      assert s[..i][0] == t[..i][0];
    }
  }

  lemma {:induction false} TextLessTotal(s: Text, t: Text)
    ensures TextLess(s, t) || s == t || TextLess(t, s)
    ensures !(TextLess(s, t) && TextLess(t, s)) && !TextLess(s, s)
  {
    if s != [] && t != [] {
      TextLessTotal(s[1..], t[1..]);
      TextLessTotal(s[1..], s[1..]);
      assert s[0] == t[0] && s[1..] == t[1..] ==> s == [s[0]] + s[1..] == t;
    } else if s != [] {
      TextLessTotal(s[1..], s[1..]);
    }
  }

  lemma {:induction false} TextLessTransitive(s: Text, t: Text, u: Text)
    requires TextLess(s, t) && TextLess(t, u)
    ensures TextLess(s, u)
  {
    if s != [] && s[0] == t[0] == u[0] {
      TextLessTransitive(s[1..], t[1..], u[1..]);
    }
  }

  ghost predicate TextsOrdered(ts: seq<Text>) {
    forall i, j :: 0 <= i < j < |ts| ==> !TextLess(ts[j], ts[i])
  }

  function InsertText(x: Text, ts: seq<Text>): seq<Text> {
    if ts == [] || !TextLess(ts[0], x) then [x] + ts else [ts[0]] + InsertText(x, ts[1..])
  }

  /** `sorted(ts)`. */
  function SortTexts(ts: seq<Text>): seq<Text> {
    if ts == [] then [] else InsertText(ts[0], SortTexts(ts[1..]))
  }

  lemma {:induction false} InsertTextKeeps(x: Text, ts: seq<Text>)
    ensures multiset(InsertText(x, ts)) == multiset(ts) + multiset{x}
  {
    hide TextLess;
    if ts != [] && TextLess(ts[0], x) {
      InsertTextKeeps(x, ts[1..]);
      assert ts == [ts[0]] + ts[1..];
    }
  }

  /** Putting a text in front of an ordered list none of whose texts is below it. */
  lemma ConsOrdered(x: Text, ts: seq<Text>)
    requires TextsOrdered(ts) && forall t :: t in ts ==> !TextLess(t, x)
    ensures TextsOrdered([x] + ts)
  {
  }

  lemma InsertTextMembers(x: Text, ts: seq<Text>, t: Text)
    requires t in InsertText(x, ts)
    ensures t == x || t in ts
  {
  }

  lemma HeadIsFirst(ts: seq<Text>, t: Text)
    requires TextsOrdered(ts) && t in ts
    ensures !TextLess(t, ts[0])
  {
    TextLessTotal(t, t);
    hide TextLess;
    var k :| 0 <= k < |ts| && ts[k] == t;
  }

  lemma {:induction false} InsertTextOrdered(x: Text, ts: seq<Text>)
    requires TextsOrdered(ts)
    ensures TextsOrdered(InsertText(x, ts))
  {
    if ts == [] {
    } else if !TextLess(ts[0], x) {
      hide TextLess;
      forall t | t in ts
        ensures !TextLess(t, x)
      {
        HeadIsFirst(ts, t);
        BelowOrdered(t, ts[0], x);
      }
      ConsOrdered(x, ts);
    } else {
      TextLessTotal(ts[0], x);
      hide TextLess;
      InsertTextOrdered(x, ts[1..]);
      var rest := InsertText(x, ts[1..]);
      forall t | t in rest
        ensures !TextLess(t, ts[0])
      {
        InsertTextMembers(x, ts[1..], t);
        if t != x {
          HeadIsFirst(ts, t);
        }
      }
      ConsOrdered(ts[0], rest);
    }
  }

  /** What is not below x, and has y not above it, keeps y not below x. */
  lemma BelowOrdered(z: Text, y: Text, x: Text)
    requires !TextLess(z, y) && !TextLess(y, x)
    ensures !TextLess(z, x)
  {
  }

  lemma {:induction false} SortTextsSorts(ts: seq<Text>)
    ensures TextsOrdered(SortTexts(ts)) && multiset(SortTexts(ts)) == multiset(ts)
  {
    if ts != [] {
      SortTextsSorts(ts[1..]);
      InsertTextOrdered(ts[0], SortTexts(ts[1..]));
      InsertTextKeeps(ts[0], SortTexts(ts[1..]));
      assert ts == [ts[0]] + ts[1..];
    }
  }
}
