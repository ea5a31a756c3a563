/**
 * The compact JSON text of a canonical value, as `json.dumps(..., sort_keys=True,
 * separators=(",", ":"), allow_nan=False)` prints it with its ASCII-only default, and
 * the proof that the text determines the value (RFC 8259, sections 4 to 7).
 */
module JsonPrinter {
  import opened PyText

  // ---------------------------------------------------------------- values

  predicate IsNumberChar(c: char) {
    '0' <= c <= '9' || c == '-' || c == '+' || c == '.' || c == 'e'
  }

  /** `repr` of a finite float: number characters, and a point or an exponent. */
  predicate IsFloatText(s: string) {
    && |s| > 0 && (s[0] == '-' || '0' <= s[0] <= '9')
    && (forall i :: 0 <= i < |s| ==> IsNumberChar(s[i]))
    && exists i :: 0 <= i < |s| && (s[i] == '.' || s[i] == 'e')
  }

  type FloatText = s: string | IsFloatText(s)
    ghost witness (assert "0.0"[1] == '.'; "0.0")

  /**
   * A value ready to print: strings are UTF-16 code units, dictionary entries are in
   * print order. A finite float is its `repr`, which round-trips.
   */
  datatype Tree =
    | TNull
    | TBool(b: bool)
    | TInt(n: int)
    | TFloat(repr: FloatText)
    | TStr(units: seq<Unit>)
    | TList(items: seq<Tree>)
    | TDict(entries: seq<Entry>)

  datatype Entry = Entry(key: seq<Unit>, value: Tree)

  // ---------------------------------------------------------------- printing

  function HexDigit(d: int): (c: char)
    requires 0 <= d < 16
    ensures c != '"' && c != '\\'
  {
    if d < 10 then (48 + d) as char else (87 + d) as char
  }

  function Hex4(u: Unit): (s: string)
    ensures |s| == 4
  {
    [HexDigit(u / 4096), HexDigit(u / 256 % 16), HexDigit(u / 16 % 16), HexDigit(u % 16)]
  }

  /** The letter of a two-character escape, if the unit has one. */
  function ShortEscape(u: Unit): (c: char) {
    if u == 0x22 then '"'
    else if u == 0x5C then '\\'
    else if u == 0x0A then 'n'
    else if u == 0x0D then 'r'
    else if u == 0x09 then 't'
    else if u == 0x0C then 'f'
    else if u == 0x08 then 'b'
    else ' '
  }

  /** One code unit inside a JSON string. */
  function Escape(u: Unit): (s: string)
    ensures |s| > 0
  {
    if ShortEscape(u) != ' ' then ['\\', ShortEscape(u)]
    else if 0x20 <= u <= 0x7E then [u as char]
    else ['\\', 'u'] + Hex4(u)
  }

  function EscapeAll(units: seq<Unit>): string {
    if units == [] then "" else Escape(units[0]) + EscapeAll(units[1..])
  }

  function Quoted(units: seq<Unit>): string {
    ['"'] + EscapeAll(units) + ['"']
  }

  function Print(v: Tree): string {
    match v
    case TNull => "null"
    case TBool(b) => if b then "true" else "false"
    case TInt(n) => Decimal(n)
    case TFloat(text) => text
    case TStr(units) => Quoted(units)
    case TList(items) => ['['] + (if items == [] then "" else Print(items[0]) + PrintRest(items[1..])) + [']']
    case TDict(entries) =>
      ['{'] + (if entries == [] then "" else PrintEntry(entries[0]) + PrintEntries(entries[1..])) + ['}']
  }

  /** The remaining items of a list, each after a comma. */
  function PrintRest(items: seq<Tree>): string {
    if items == [] then "" else [','] + Print(items[0]) + PrintRest(items[1..])
  }

  function PrintEntry(e: Entry): string {
    Quoted(e.key) + [':'] + Print(e.value)
  }

  function PrintEntries(entries: seq<Entry>): string {
    if entries == [] then "" else [','] + PrintEntry(entries[0]) + PrintEntries(entries[1..])
  }

  // ---------------------------------------------------------------- strings

  lemma HexDigitInjective(a: int, b: int)
    requires 0 <= a < 16 && 0 <= b < 16 && HexDigit(a) == HexDigit(b)
    ensures a == b
  {
  }

  lemma Hex4Injective(u: Unit, v: Unit)
    requires Hex4(u) == Hex4(v)
    ensures u == v
  {
    var s, t := Hex4(u), Hex4(v);
    assert s[0] == t[0] && s[1] == t[1] && s[2] == t[2] && s[3] == t[3];
    HexDigitInjective(u / 4096, v / 4096);
    HexDigitInjective(u / 256 % 16, v / 256 % 16);
    HexDigitInjective(u / 16 % 16, v / 16 % 16);
    HexDigitInjective(u % 16, v % 16);
    hide HexDigit, Hex4;
    Nibbles(u);
    Nibbles(v);
  }

  lemma Nibbles(u: Unit)
    ensures u == 4096 * (u / 4096) + 256 * (u / 256 % 16) + 16 * (u / 16 % 16) + u % 16
  {
    assert u / 256 == 16 * (u / 4096) + u / 256 % 16;
    assert u / 16 == 16 * (u / 256) + u / 16 % 16;
  }

  /** Two texts that start with escapes of equal length agree on the escapes and on what follows. */
  lemma SplitPrefix(a: string, b: string, r: string, s: string)
    requires a + r == b + s && |a| == |b|
    ensures a == b && r == s
  {
    assert a == (a + r)[..|a|] && r == (a + r)[|a|..];
    assert b == (b + s)[..|b|] && s == (b + s)[|b|..];
  }

  /** Escapes form a prefix code. */
  lemma EscapeCancels(u: Unit, v: Unit, r: string, s: string)
    requires Escape(u) + r == Escape(v) + s
    ensures u == v && r == s
  {
    var a, b := Escape(u), Escape(v);
    EscapeHead(u);
    EscapeHead(v);
    assert a[0] == (a + r)[0] == (b + s)[0] == b[0];
    if a[0] == '\\' {
      assert a[1] == (a + r)[1] == (b + s)[1] == b[1];
    }
    SplitPrefix(a, b, r, s);
    EscapeInjective(u, v);
  }

  /** How an escape starts tells its length. */
  lemma EscapeHead(u: Unit)
    ensures var a := Escape(u);
            && a[0] != '"'
            && (a[0] == '\\' ==> |a| >= 2)
            && |a| == (if a[0] != '\\' then 1 else if a[1] != 'u' then 2 else 6)
  {
  }

  lemma EscapeInjective(u: Unit, v: Unit)
    requires Escape(u) == Escape(v)
    ensures u == v
  {
    var a, b := Escape(u), Escape(v);
    if |a| == 1 {
      PlainUnit(u);
      PlainUnit(v);
    } else if |a| == 2 {
      assert a[1] == b[1];
    } else {
      assert a[2..] == Hex4(u) && b[2..] == Hex4(v);
      Hex4Injective(u, v);
    }
  }

  lemma PlainUnit(u: Unit)
    requires |Escape(u)| == 1
    ensures Escape(u)[0] as int == u
  {
  }

  /** A quoted string ends at its first bare quote. */
  lemma {:induction false} EscapeAllCancels(u: seq<Unit>, v: seq<Unit>, r: string, s: string)
    requires EscapeAll(u) + (['"'] + r) == EscapeAll(v) + (['"'] + s)
    ensures u == v && r == s
  {
    if u == [] && v == [] {
      assert "" + (['"'] + r) == ['"'] + r && "" + (['"'] + s) == ['"'] + s;
      SplitPrefix(['"'], ['"'], r, s);
    } else if u == [] {
      QuoteFirst(v, s, r);
    } else if v == [] {
      QuoteFirst(u, r, s);
    } else {
      EscapeAllUnfold(u, ['"'] + r);
      EscapeAllUnfold(v, ['"'] + s);
      hide EscapeAll;
      EscapeCancels(u[0], v[0], EscapeAll(u[1..]) + (['"'] + r), EscapeAll(v[1..]) + (['"'] + s));
      EscapeAllCancels(u[1..], v[1..], r, s);
    }
  }

  lemma EscapeAllUnfold(u: seq<Unit>, x: string)
    requires u != []
    ensures EscapeAll(u) + x == Escape(u[0]) + (EscapeAll(u[1..]) + x)
  {
  }

  /** A non-empty escaped body does not start with a quote. */
  lemma QuoteFirst(v: seq<Unit>, s: string, r: string)
    requires v != []
    ensures EscapeAll(v) + (['"'] + s) != EscapeAll([]) + (['"'] + r)
  {
    EscapeHead(v[0]);
    assert (EscapeAll(v) + (['"'] + s))[0] == Escape(v[0])[0];
    assert (EscapeAll([]) + (['"'] + r))[0] == '"';
  }

  lemma QuotedCancels(u: seq<Unit>, v: seq<Unit>, r: string, s: string)
    requires Quoted(u) + r == Quoted(v) + s
    ensures u == v && r == s
  {
    QuotedUnfold(u, r);
    QuotedUnfold(v, s);
    hide Quoted, EscapeAll;
    SplitPrefix(['"'], ['"'], EscapeAll(u) + (['"'] + r), EscapeAll(v) + (['"'] + s));
    EscapeAllCancels(u, v, r, s);
  }

  lemma QuotedUnfold(u: seq<Unit>, r: string)
    ensures Quoted(u) + r == ['"'] + (EscapeAll(u) + (['"'] + r))
  {
  }

  // ---------------------------------------------------------------- numbers

  /** What may follow a value: nothing, or a character no number contains. */
  predicate Delimited(r: string) {
    r == "" || !IsNumberChar(r[0])
  }

  predicate NumberText(t: string) {
    |t| > 0 && (t[0] == '-' || '0' <= t[0] <= '9') && forall i :: 0 <= i < |t| ==> IsNumberChar(t[i])
  }

  /** Maximal munch: delimited number texts that continue alike are equal. */
  lemma NumberCancels(a: string, b: string, r: string, s: string)
    requires NumberText(a) && NumberText(b) && Delimited(r) && Delimited(s)
    requires a + r == b + s
    ensures a == b && r == s
  {
    if |a| < |b| {
      NotShorter(a, b, r, s);
    } else if |b| < |a| {
      NotShorter(b, a, s, r);
    }
    SplitPrefix(a, b, r, s);
  }

  lemma NotShorter(a: string, b: string, r: string, s: string)
    requires NumberText(b) && Delimited(r) && |a| < |b|
    ensures a + r != b + s
  {
    assert (b + s)[|a|] == b[|a|];
    if r != "" {
      assert (a + r)[|a|] == r[0];
    }
  }

  /** Integers have no point or exponent, floats have one. */
  lemma IntIsNotFloat(n: int, f: FloatText)
    ensures Decimal(n) != f
  {
  }

  // ---------------------------------------------------------------- whole values

  /** The kind of value a first character announces. */
  function HeadKind(c: char): int {
    if c == 'n' then 0
    else if c == 't' then 1
    else if c == 'f' then 2
    else if c == '"' then 3
    else if c == '[' then 4
    else if c == '{' then 5
    else if c == '-' || '0' <= c <= '9' then 6
    else 7
  }

  function Kind(v: Tree): (k: int)
    ensures 0 <= k <= 6
  {
    match v
    case TNull => 0
    case TBool(b) => if b then 1 else 2
    case TStr(_) => 3
    case TList(_) => 4
    case TDict(_) => 5
    case TInt(_) => 6
    case TFloat(_) => 6
  }

  lemma PrintHead(v: Tree)
    ensures |Print(v)| > 0 && HeadKind(Print(v)[0]) == Kind(v)
  {
  }

  lemma SameKind(a: Tree, b: Tree, r: string, s: string)
    requires Print(a) + r == Print(b) + s
    ensures Kind(a) == Kind(b)
  {
    PrintHead(a);
    PrintHead(b);
    hide Print, Kind;
    assert Print(a)[0] == (Print(a) + r)[0] == (Print(b) + s)[0] == Print(b)[0];
  }

  function ListBody(items: seq<Tree>): string {
    if items == [] then "" else Print(items[0]) + PrintRest(items[1..])
  }

  function DictBody(entries: seq<Entry>): string {
    if entries == [] then "" else PrintEntry(entries[0]) + PrintEntries(entries[1..])
  }

  lemma PrintList(items: seq<Tree>, r: string)
    ensures Print(TList(items)) + r == ['['] + (ListBody(items) + ([']'] + r))
  {
  }

  lemma PrintDict(entries: seq<Entry>, r: string)
    ensures Print(TDict(entries)) + r == ['{'] + (DictBody(entries) + (['}'] + r))
  {
  }

  /** The text of a value, followed by nothing a number could absorb, determines the value. */
  lemma {:induction false} PrintCancels(a: Tree, b: Tree, r: string, s: string)
    requires Print(a) + r == Print(b) + s && Delimited(r) && Delimited(s)
    ensures a == b && r == s
    decreases a, 1
  {
    SameKind(a, b, r, s);
    match a
    case TNull =>
      SplitPrefix(Print(a), Print(b), r, s);
    case TBool(_) =>
      SplitPrefix(Print(a), Print(b), r, s);
    case TInt(_) =>
      NumbersCancel(a, b, r, s);
    case TFloat(_) =>
      NumbersCancel(a, b, r, s);
    case TStr(units) =>
      QuotedCancels(units, b.units, r, s);
    case TList(items) =>
      PrintList(items, r);
      PrintList(b.items, s);
      hide Print, ListBody;
      SplitPrefix(['['], ['['], ListBody(items) + ([']'] + r), ListBody(b.items) + ([']'] + s));
      ListBodyCancels(items, b.items, r, s);
    case TDict(entries) =>
      PrintDict(entries, r);
      PrintDict(b.entries, s);
      hide Print, DictBody;
      SplitPrefix(['{'], ['{'], DictBody(entries) + (['}'] + r), DictBody(b.entries) + (['}'] + s));
      DictBodyCancels(entries, b.entries, r, s);
  }

  lemma NumbersCancel(a: Tree, b: Tree, r: string, s: string)
    requires Kind(a) == Kind(b) == 6
    requires Print(a) + r == Print(b) + s && Delimited(r) && Delimited(s)
    ensures a == b && r == s
  {
    NumberCancels(Print(a), Print(b), r, s);
    match (a, b)
    case (TInt(m), TInt(n)) => DecimalInjective(m, n);
    case (TInt(m), TFloat(f)) => IntIsNotFloat(m, f);
    case (TFloat(f), TInt(m)) => IntIsNotFloat(m, f);
    case (TFloat(_), TFloat(_)) =>
  }

  /** What follows an item: a comma or the closing bracket. */
  lemma RestIsDelimited(items: seq<Tree>, r: string)
    ensures var t := PrintRest(items) + ([']'] + r); t != "" && t[0] == if items == [] then ']' else ','
  {
  }

  lemma RestUnfold(items: seq<Tree>, r: string)
    requires items != []
    ensures PrintRest(items) + ([']'] + r) == [','] + (Print(items[0]) + (PrintRest(items[1..]) + ([']'] + r)))
  {
  }

  lemma EntriesAreDelimited(entries: seq<Entry>, r: string)
    ensures var t := PrintEntries(entries) + (['}'] + r); t != "" && t[0] == if entries == [] then '}' else ','
  {
  }

  lemma EntriesUnfold(entries: seq<Entry>, r: string)
    requires entries != []
    ensures PrintEntries(entries) + (['}'] + r) ==
            [','] + (PrintEntry(entries[0]) + (PrintEntries(entries[1..]) + (['}'] + r)))
  {
    hide PrintEntry;
    var x, y := PrintEntry(entries[0]), PrintEntries(entries[1..]);
    assert PrintEntries(entries) == [','] + x + y;
  }

  lemma {:induction false} ListBodyCancels(a: seq<Tree>, b: seq<Tree>, r: string, s: string)
    requires ListBody(a) + ([']'] + r) == ListBody(b) + ([']'] + s)
    ensures a == b && r == s
    decreases a, 0
  {
    if a == [] || b == [] {
      EmptyListBody(a, b, r, s);
    } else {
      ListBodyUnfold(a, r);
      ListBodyUnfold(b, s);
      RestIsDelimited(a[1..], r);
      RestIsDelimited(b[1..], s);
      hide Print, PrintRest, ListBody;
      PrintCancels(a[0], b[0], PrintRest(a[1..]) + ([']'] + r), PrintRest(b[1..]) + ([']'] + s));
      RestCancels(a[1..], b[1..], r, s);
    }
  }

  lemma ListBodyUnfold(a: seq<Tree>, r: string)
    requires a != []
    ensures ListBody(a) + ([']'] + r) == Print(a[0]) + (PrintRest(a[1..]) + ([']'] + r))
  {
  }

  lemma EmptyListBody(a: seq<Tree>, b: seq<Tree>, r: string, s: string)
    requires a == [] || b == []
    requires ListBody(a) + ([']'] + r) == ListBody(b) + ([']'] + s)
    ensures a == b == [] && r == s
  {
    ListBodyHead(a, r);
    ListBodyHead(b, s);
    if a == [] && b == [] {
      assert ListBody(a) + ([']'] + r) == [']'] + r && ListBody(b) + ([']'] + s) == [']'] + s;
      SplitPrefix([']'], [']'], r, s);
    }
  }

  lemma ListBodyHead(a: seq<Tree>, r: string)
    ensures var t := ListBody(a) + ([']'] + r); t != "" && (t[0] == ']' <==> a == [])
  {
    if a != [] {
      PrintHead(a[0]);
      hide Print, PrintRest;
      assert (ListBody(a) + ([']'] + r))[0] == Print(a[0])[0];
    }
  }

  lemma {:induction false} RestCancels(a: seq<Tree>, b: seq<Tree>, r: string, s: string)
    requires PrintRest(a) + ([']'] + r) == PrintRest(b) + ([']'] + s)
    ensures a == b && r == s
    decreases a, 0
  {
    RestIsDelimited(a, r);
    RestIsDelimited(b, s);
    if a == [] {
      assert PrintRest(a) + ([']'] + r) == [']'] + r && PrintRest(b) + ([']'] + s) == [']'] + s;
      SplitPrefix([']'], [']'], r, s);
    } else {
      RestUnfold(a, r);
      RestUnfold(b, s);
      RestIsDelimited(a[1..], r);
      RestIsDelimited(b[1..], s);
      hide Print, PrintRest;
      var x, y := PrintRest(a[1..]) + ([']'] + r), PrintRest(b[1..]) + ([']'] + s);
      SplitPrefix([','], [','], Print(a[0]) + x, Print(b[0]) + y);
      PrintCancels(a[0], b[0], x, y);
      RestCancels(a[1..], b[1..], r, s);
    }
  }

  lemma {:induction false} EntryCancels(a: Entry, b: Entry, r: string, s: string)
    requires PrintEntry(a) + r == PrintEntry(b) + s && Delimited(r) && Delimited(s)
    ensures a == b && r == s
    decreases a, 2
  {
    PrintEntryUnfold(a, r);
    PrintEntryUnfold(b, s);
    hide Print, PrintEntry, Quoted;
    QuotedCancels(a.key, b.key, [':'] + (Print(a.value) + r), [':'] + (Print(b.value) + s));
    SplitPrefix([':'], [':'], Print(a.value) + r, Print(b.value) + s);
    PrintCancels(a.value, b.value, r, s);
  }

  lemma PrintEntryUnfold(a: Entry, r: string)
    ensures PrintEntry(a) + r == Quoted(a.key) + ([':'] + (Print(a.value) + r))
  {
  }

  lemma {:induction false} DictBodyCancels(a: seq<Entry>, b: seq<Entry>, r: string, s: string)
    requires DictBody(a) + (['}'] + r) == DictBody(b) + (['}'] + s)
    ensures a == b && r == s
    decreases a, 0
  {
    if a == [] || b == [] {
      EmptyDictBody(a, b, r, s);
    } else {
      DictBodyUnfold(a, r);
      DictBodyUnfold(b, s);
      EntriesAreDelimited(a[1..], r);
      EntriesAreDelimited(b[1..], s);
      hide PrintEntry, PrintEntries, DictBody;
      EntryCancels(a[0], b[0], PrintEntries(a[1..]) + (['}'] + r), PrintEntries(b[1..]) + (['}'] + s));
      EntriesCancel(a[1..], b[1..], r, s);
    }
  }

  lemma DictBodyUnfold(a: seq<Entry>, r: string)
    requires a != []
    ensures DictBody(a) + (['}'] + r) == PrintEntry(a[0]) + (PrintEntries(a[1..]) + (['}'] + r))
  {
  }

  lemma EmptyDictBody(a: seq<Entry>, b: seq<Entry>, r: string, s: string)
    requires a == [] || b == []
    requires DictBody(a) + (['}'] + r) == DictBody(b) + (['}'] + s)
    ensures a == b == [] && r == s
  {
    DictBodyHead(a, r);
    DictBodyHead(b, s);
    if a == [] && b == [] {
      assert DictBody(a) + (['}'] + r) == ['}'] + r && DictBody(b) + (['}'] + s) == ['}'] + s;
      SplitPrefix(['}'], ['}'], r, s);
    }
  }

  lemma DictBodyHead(a: seq<Entry>, r: string)
    ensures var t := DictBody(a) + (['}'] + r); t != "" && (t[0] == '}' <==> a == [])
  {
    if a != [] {
      hide Print, PrintEntries, EscapeAll;
      assert (DictBody(a) + (['}'] + r))[0] == '"';
    }
  }

  lemma {:induction false} EntriesCancel(a: seq<Entry>, b: seq<Entry>, r: string, s: string)
    requires PrintEntries(a) + (['}'] + r) == PrintEntries(b) + (['}'] + s)
    ensures a == b && r == s
    decreases a, 0
  {
    EntriesAreDelimited(a, r);
    EntriesAreDelimited(b, s);
    if a == [] {
      assert PrintEntries(a) + (['}'] + r) == ['}'] + r && PrintEntries(b) + (['}'] + s) == ['}'] + s;
      SplitPrefix(['}'], ['}'], r, s);
    } else {
      EntriesUnfold(a, r);
      EntriesUnfold(b, s);
      EntriesAreDelimited(a[1..], r);
      EntriesAreDelimited(b[1..], s);
      hide PrintEntry, PrintEntries;
      var x, y := PrintEntries(a[1..]) + (['}'] + r), PrintEntries(b[1..]) + (['}'] + s);
      SplitPrefix([','], [','], PrintEntry(a[0]) + x, PrintEntry(b[0]) + y);
      EntryCancels(a[0], b[0], x, y);
      EntriesCancel(a[1..], b[1..], r, s);
    }
  }

  /** The canonical printer is injective. */
  lemma PrintInjective(a: Tree, b: Tree)
    ensures Print(a) == Print(b) <==> a == b
  {
    if Print(a) == Print(b) {
      assert Print(a) + "" == Print(b) + "";
      PrintCancels(a, b, "", "");
    }
  }
}
