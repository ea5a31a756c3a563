/**
 * A reader of compact JSON text by the grammar of RFC 8259, sections 2 to 7, and the proof
 * that it reads back what the printer prints.
 */
module JsonReader {
  import opened Wrappers
  import opened PyText
  import opened JsonPrinter

  // ---------------------------------------------------------------- strings

  function HexValue(c: char): Option<int> {
    if '0' <= c <= '9' then Some(c as int - 48)
    else if 'a' <= c <= 'f' then Some(c as int - 87)
    else if 'A' <= c <= 'F' then Some(c as int - 55)
    else None
  }

  /** The code unit that four hexadecimal digits spell. */
  function ReadHex4(s: string): (r: Option<Unit>)
    requires |s| >= 4
  {
    match (HexValue(s[0]), HexValue(s[1]), HexValue(s[2]), HexValue(s[3]))
    case (Some(a), Some(b), Some(c), Some(d)) =>
      var u := 4096 * a + 256 * b + 16 * c + d;
      if 0 <= u <= 0xFFFF then Some(u) else None
    case _ => None
  }

  /** The unit a two-character escape stands for. */
  function ShortUnit(c: char): Option<Unit> {
    if c == '"' then Some(0x22)
    else if c == '\\' then Some(0x5C)
    else if c == '/' then Some(0x2F)
    else if c == 'b' then Some(0x08)
    else if c == 'f' then Some(0x0C)
    else if c == 'n' then Some(0x0A)
    else if c == 'r' then Some(0x0D)
    else if c == 't' then Some(0x09)
    else None
  }

  /** One character of a string, and what follows it; None at the closing quote or for a control character. */
  function ReadUnit(s: string): (r: Option<(Unit, string)>)
    ensures r.Some? ==> |r.value.1| < |s|
  {
    if s == "" || s[0] == '"' || s[0] as int < 0x20 || s[0] as int > 0xFFFF then None
    else if s[0] != '\\' then Some((s[0] as int, s[1..]))
    else if |s| >= 6 && s[1] == 'u' then
      match ReadHex4(s[2..])
      case Some(u) => Some((u, s[6..]))
      case None => None
    else if |s| >= 2 && ShortUnit(s[1]).Some? then Some((ShortUnit(s[1]).value, s[2..]))
    else None
  }

  /** The rest of a string after its opening quote. */
  function ReadString(s: string): (r: Option<(seq<Unit>, string)>)
    ensures r.Some? ==> |r.value.1| < |s|
    decreases |s|
  {
    if s != "" && s[0] == '"' then Some(([], s[1..]))
    else
      match ReadUnit(s)
      case None => None
      case Some((u, rest)) =>
        match ReadString(rest)
        case None => None
        case Some((units, after)) => Some(([u] + units, after))
  }

  // ---------------------------------------------------------------- numbers

  /** The length of the longest start that only number characters make up. */
  function NumberLength(s: string): (k: nat)
    ensures k <= |s|
  {
    if s == "" || !IsNumberChar(s[0]) then 0 else 1 + NumberLength(s[1..])
  }

  /** A number with a point or an exponent is a float, any other an integer. */
  function ReadNumber(t: string): Option<Tree> {
    if IsFloatText(t) then Some(TFloat(t))
    else if AllDigits(t) then Some(TInt(DecimalValue(t)))
    else if t != "" && t[0] == '-' && AllDigits(t[1..]) then
      var magnitude: int := DecimalValue(t[1..]);
      Some(TInt(-magnitude))
    else None
  }

  // ---------------------------------------------------------------- values

  predicate StartsWith(s: string, t: string) {
    |t| <= |s| && s[..|t|] == t
  }

  /** A value, and what follows it. */
  function ReadValue(s: string): (r: Option<(Tree, string)>)
    ensures r.Some? ==> |r.value.1| < |s|
    decreases |s|, 0
  {
    if StartsWith(s, "null") then Some((TNull, s[4..]))
    else if StartsWith(s, "true") then Some((TBool(true), s[4..]))
    else if StartsWith(s, "false") then Some((TBool(false), s[5..]))
    else if StartsWith(s, "\"") then
      match ReadString(s[1..])
      case Some((units, rest)) => Some((TStr(units), rest))
      case None => None
    else if StartsWith(s, "[]") then Some((TList([]), s[2..]))
    else if StartsWith(s, "[") then
      match ReadItems(s[1..])
      case Some((items, rest)) => Some((TList(items), rest))
      case None => None
    else if StartsWith(s, "{}") then Some((TDict([]), s[2..]))
    else if StartsWith(s, "{") then
      match ReadEntries(s[1..])
      case Some((entries, rest)) => Some((TDict(entries), rest))
      case None => None
    else
      var k := NumberLength(s);
      match ReadNumber(s[..k])
      case Some(v) => if k > 0 then Some((v, s[k..])) else None
      case None => None
  }

  /** The items of a list up to its closing bracket. */
  function ReadItems(s: string): (r: Option<(seq<Tree>, string)>)
    ensures r.Some? ==> |r.value.1| < |s|
    decreases |s|, 1
  {
    match ReadValue(s)
    case None => None
    case Some((v, rest)) =>
      if StartsWith(rest, "]") then Some(([v], rest[1..]))
      else if StartsWith(rest, ",") then
        match ReadItems(rest[1..])
        case None => None
        case Some((items, after)) => Some(([v] + items, after))
      else None
  }

  /** A key, a colon and a value. */
  function ReadEntry(s: string): (r: Option<(Entry, string)>)
    ensures r.Some? ==> |r.value.1| < |s|
    decreases |s|, 1
  {
    if !StartsWith(s, "\"") then None
    else
      match ReadString(s[1..])
      case None => None
      case Some((key, rest)) =>
        if !StartsWith(rest, ":") then None
        else
          match ReadValue(rest[1..])
          case None => None
          case Some((v, after)) => Some((Entry(key, v), after))
  }

  /** The entries of a dictionary up to its closing brace. */
  function ReadEntries(s: string): (r: Option<(seq<Entry>, string)>)
    ensures r.Some? ==> |r.value.1| < |s|
    decreases |s|, 2
  {
    match ReadEntry(s)
    case None => None
    case Some((e, rest)) =>
      if StartsWith(rest, "}") then Some(([e], rest[1..]))
      else if StartsWith(rest, ",") then
        match ReadEntries(rest[1..])
        case None => None
        case Some((entries, after)) => Some(([e] + entries, after))
      else None
  }

  // ---------------------------------------------------------------- reading back

  lemma HexRead(d: int)
    requires 0 <= d < 16
    ensures HexValue(HexDigit(d)) == Some(d)
  {
  }

  lemma Hex4Read(u: Unit, r: string)
    ensures ReadHex4(Hex4(u) + r) == Some(u)
  {
    HexRead(u / 4096);
    HexRead(u / 256 % 16);
    HexRead(u / 16 % 16);
    HexRead(u % 16);
    Nibbles(u);
    hide HexDigit, HexValue;
    var s := Hex4(u) + r;
    assert s[0] == HexDigit(u / 4096) && s[1] == HexDigit(u / 256 % 16);
    assert s[2] == HexDigit(u / 16 % 16) && s[3] == HexDigit(u % 16);
  }

  /** An escape reads back as its unit, whatever follows. */
  lemma UnitRead(u: Unit, r: string)
    ensures ReadUnit(Escape(u) + r) == Some((u, r))
  {
    var s := Escape(u) + r;
    if ShortEscape(u) != ' ' {
      assert s[0] == '\\' && s[1] == ShortEscape(u) && s[2..] == r;
    } else if 0x20 <= u <= 0x7E {
      assert s[0] == u as char && s[1..] == r;
    } else {
      Hex4Read(u, r);
      assert s[0] == '\\' && s[1] == 'u' && s[2..] == Hex4(u) + r && s[6..] == r;
      hide Hex4, ReadHex4;
    }
  }

  lemma StringEnds(r: string)
    ensures ReadString(EscapeAll([]) + (['"'] + r)) == Some(([], r))
  {
    assert EscapeAll([]) + (['"'] + r) == ['"'] + r;
    assert (['"'] + r)[1..] == r;
  }

  /** One more unit in front. */
  lemma StringStep(u: Unit, s: string, tail: string, units: seq<Unit>, r: string)
    requires s != "" && s[0] != '"' && ReadUnit(s) == Some((u, tail)) && ReadString(tail) == Some((units, r))
    ensures ReadString(s) == Some(([u] + units, r))
  {
    hide ReadUnit;
  }

  lemma {:induction false} StringRead(units: seq<Unit>, r: string)
    ensures ReadString(EscapeAll(units) + (['"'] + r)) == Some((units, r))
  {
    hide Escape, EscapeAll, ReadUnit, ReadString;
    if units == [] {
      StringEnds(r);
    } else {
      var tail := EscapeAll(units[1..]) + (['"'] + r);
      EscapeAllUnfold(units, ['"'] + r);
      EscapeHead(units[0]);
      assert (Escape(units[0]) + tail)[0] == Escape(units[0])[0];
      UnitRead(units[0], tail);
      StringRead(units[1..], r);
      StringStep(units[0], Escape(units[0]) + tail, tail, units[1..], r);
      assert units == [units[0]] + units[1..];
    }
  }

  lemma {:induction false} NumberEnds(t: string, r: string)
    requires Delimited(r) && forall i :: 0 <= i < |t| ==> IsNumberChar(t[i])
    ensures NumberLength(t + r) == |t|
  {
    if t == "" {
      assert t + r == r;
    } else {
      assert (t + r)[1..] == t[1..] + r;
      NumberEnds(t[1..], r);
    }
  }

  lemma IntegerRead(n: int)
    ensures ReadNumber(Decimal(n)) == Some(TInt(n))
  {
    if IsFloatText(Decimal(n)) {
      IntIsNotFloat(n, Decimal(n));
    }
    DigitsRead(if n < 0 then -n else n);
    hide Digits, IsFloatText;
    if n < 0 {
      assert Decimal(n)[1..] == Digits(-n);
    }
  }

  lemma SplitsOff(t: string, r: string)
    ensures (t + r)[..|t|] == t && (t + r)[|t|..] == r
  {
  }

  lemma Starts(w: string, r: string)
    ensures StartsWith(w + r, w)
  {
  }

  lemma NotStarts(s: string, w: string)
    requires s != "" && w != "" && s[0] != w[0]
    ensures !StartsWith(s, w)
  {
    if |w| <= |s| {
      assert s[..|w|][0] == s[0];
    }
  }

  lemma NoWord(s: string)
    requires s != "" && s[0] != 'n' && s[0] != 't' && s[0] != 'f'
    ensures !StartsWith(s, "null") && !StartsWith(s, "true") && !StartsWith(s, "false")
  {
    NotStarts(s, "null");
    NotStarts(s, "true");
    NotStarts(s, "false");
  }

  lemma NoList(s: string)
    requires s != "" && s[0] != '[' && s[0] != '"'
    ensures !StartsWith(s, "\"") && !StartsWith(s, "[]") && !StartsWith(s, "[")
  {
    NotStarts(s, "\"");
    NotStarts(s, "[]");
    NotStarts(s, "[");
  }

  lemma NotEmptied(b: string, open: char, close: char)
    requires b != "" && b[0] != close
    ensures !StartsWith([open] + b, [open, close])
  {
    assert ([open] + b)[1] == b[0];
  }

  /** A number text starts neither a word nor a string, list or dictionary. */
  lemma NumberRead(t: string, r: string, v: Tree)
    requires NumberText(t) && Delimited(r) && ReadNumber(t) == Some(v)
    ensures ReadValue(t + r) == Some((v, r))
  {
    var s := t + r;
    NumberEnds(t, r);
    SplitsOff(t, r);
    assert s[0] == t[0];
    hide StartsWith, ReadNumber, NumberLength;
    NoWord(s);
    NoList(s);
    NotStarts(s, "{}");
    NotStarts(s, "{");
  }

  lemma WordRead(w: string, v: Tree, r: string)
    requires (w == "null" && v == TNull) || (w == "true" && v == TBool(true)) || (w == "false" && v == TBool(false))
    ensures ReadValue(w + r) == Some((v, r))
  {
    var s := w + r;
    SplitsOff(w, r);
    Starts(w, r);
    assert s[0] == w[0];
    hide StartsWith;
    if w != "null" {
      NotStarts(s, "null");
    }
    if w == "false" {
      NotStarts(s, "true");
    }
  }

  lemma QuoteRead(b: string)
    ensures ReadValue(['"'] + b) ==
            match ReadString(b) case Some((units, rest)) => Some((TStr(units), rest)) case None => None
  {
    var s := ['"'] + b;
    assert s[0] == '"' && s[1..] == b;
    Starts("\"", b);
    hide StartsWith, ReadString;
    NoWord(s);
  }

  lemma BracketRead(b: string)
    requires b != "" && b[0] != ']'
    ensures ReadValue(['['] + b) ==
            match ReadItems(b) case Some((items, rest)) => Some((TList(items), rest)) case None => None
  {
    var s := ['['] + b;
    assert s[0] == '[' && s[1..] == b;
    Starts("[", b);
    NotEmptied(b, '[', ']');
    hide StartsWith, ReadItems;
    NoWord(s);
    NotStarts(s, "\"");
  }

  lemma BraceRead(b: string)
    requires b != "" && b[0] != '}'
    ensures ReadValue(['{'] + b) ==
            match ReadEntries(b) case Some((entries, rest)) => Some((TDict(entries), rest)) case None => None
  {
    var s := ['{'] + b;
    assert s[0] == '{' && s[1..] == b;
    Starts("{", b);
    NotEmptied(b, '{', '}');
    hide StartsWith, ReadEntries;
    NoWord(s);
    NoList(s);
  }

  lemma EmptyRead(r: string)
    ensures ReadValue("[]" + r) == Some((TList([]), r)) && ReadValue("{}" + r) == Some((TDict([]), r))
  {
    Starts("[]", r);
    Starts("{}", r);
    SplitsOff("[]", r);
    SplitsOff("{}", r);
    assert ("[]" + r)[0] == '[' && ("{}" + r)[0] == '{';
    hide StartsWith;
    NoWord("[]" + r);
    NotStarts("[]" + r, "\"");
    NoWord("{}" + r);
    NoList("{}" + r);
  }

  /** Whatever is printed reads back as what was printed, and the rest is left. */
  lemma {:induction false} ReadPrint(v: Tree, r: string)
    requires Delimited(r)
    ensures ReadValue(Print(v) + r) == Some((v, r))
    decreases v, 1
  {
    match v
    case TNull => WordRead("null", v, r);
    case TBool(b) => WordRead(if b then "true" else "false", v, r);
    case TInt(n) =>
      IntegerRead(n);
      NumberRead(Decimal(n), r, v);
    case TFloat(text) => NumberRead(text, r, v);
    case TStr(units) =>
      QuotedUnfold(units, r);
      StringRead(units, r);
      QuoteRead(EscapeAll(units) + (['"'] + r));
    case TList(items) => ListRead(items, r);
    case TDict(entries) => DictRead(entries, r);
  }

  lemma {:induction false} ListRead(items: seq<Tree>, r: string)
    ensures ReadValue(Print(TList(items)) + r) == Some((TList(items), r))
    decreases items, 2
  {
    PrintList(items, r);
    ListBodyHead(items, r);
    if items == [] {
      assert ['['] + (ListBody(items) + ([']'] + r)) == "[]" + r;
      EmptyRead(r);
    } else {
      ListBodyUnfold(items, r);
      hide Print, PrintRest, ListBody, ReadItems;
      BracketRead(ListBody(items) + ([']'] + r));
      ItemsRead(items, r);
    }
  }

  lemma {:induction false} ItemsRead(items: seq<Tree>, r: string)
    requires items != []
    ensures ReadItems(Print(items[0]) + (PrintRest(items[1..]) + ([']'] + r))) == Some((items, r))
    decreases items, 0
  {
    var tail := PrintRest(items[1..]) + ([']'] + r);
    RestIsDelimited(items[1..], r);
    if items[1..] == [] {
      assert tail == [']'] + r;
      hide Print, ReadValue;
      ReadPrint(items[0], tail);
      LastItem(items[0], r, Print(items[0]) + tail);
      assert items == [items[0]];
    } else {
      RestUnfold(items[1..], r);
      hide Print, PrintRest, ReadValue;
      ReadPrint(items[0], tail);
      ItemsRead(items[1..], r);
      NextItem(items[0], items[1..], tail[1..], r, Print(items[0]) + tail);
      assert items == [items[0]] + items[1..];
    }
  }

  lemma LastItem(v: Tree, r: string, s: string)
    requires ReadValue(s) == Some((v, [']'] + r))
    ensures ReadItems(s) == Some(([v], r))
  {
    assert ([']'] + r)[1..] == r;
    hide ReadValue;
  }

  lemma NextItem(v: Tree, items: seq<Tree>, more: string, r: string, s: string)
    requires ReadValue(s) == Some((v, [','] + more)) && ReadItems(more) == Some((items, r))
    ensures ReadItems(s) == Some(([v] + items, r))
  {
    assert ([','] + more)[1..] == more;
    hide ReadValue;
  }

  lemma {:induction false} DictRead(entries: seq<Entry>, r: string)
    ensures ReadValue(Print(TDict(entries)) + r) == Some((TDict(entries), r))
    decreases entries, 2
  {
    PrintDict(entries, r);
    DictBodyHead(entries, r);
    if entries == [] {
      assert ['{'] + (DictBody(entries) + (['}'] + r)) == "{}" + r;
      EmptyRead(r);
    } else {
      DictBodyUnfold(entries, r);
      hide PrintEntry, PrintEntries, DictBody, ReadEntries;
      BraceRead(DictBody(entries) + (['}'] + r));
      EntriesRead(entries, r);
    }
  }

  lemma {:induction false} EntriesRead(entries: seq<Entry>, r: string)
    requires entries != []
    ensures ReadEntries(PrintEntry(entries[0]) + (PrintEntries(entries[1..]) + (['}'] + r))) == Some((entries, r))
    decreases entries, 0
  {
    var tail := PrintEntries(entries[1..]) + (['}'] + r);
    EntriesAreDelimited(entries[1..], r);
    if entries[1..] == [] {
      assert tail == ['}'] + r;
      hide PrintEntry, ReadEntry;
      EntryRead(entries[0], tail);
      LastEntry(entries[0], r, PrintEntry(entries[0]) + tail);
      assert entries == [entries[0]];
    } else {
      EntriesUnfold(entries[1..], r);
      hide PrintEntry, PrintEntries, ReadEntry;
      EntryRead(entries[0], tail);
      EntriesRead(entries[1..], r);
      NextEntry(entries[0], entries[1..], tail[1..], r, PrintEntry(entries[0]) + tail);
      assert entries == [entries[0]] + entries[1..];
    }
  }

  lemma LastEntry(e: Entry, r: string, s: string)
    requires ReadEntry(s) == Some((e, ['}'] + r))
    ensures ReadEntries(s) == Some(([e], r))
  {
    assert (['}'] + r)[1..] == r;
    hide ReadEntry;
  }

  lemma NextEntry(e: Entry, entries: seq<Entry>, more: string, r: string, s: string)
    requires ReadEntry(s) == Some((e, [','] + more)) && ReadEntries(more) == Some((entries, r))
    ensures ReadEntries(s) == Some(([e] + entries, r))
  {
    assert ([','] + more)[1..] == more;
    hide ReadEntry;
  }

  lemma {:induction false} EntryRead(e: Entry, r: string)
    requires Delimited(r)
    ensures ReadEntry(PrintEntry(e) + r) == Some((e, r))
    decreases e, 2
  {
    var value := Print(e.value) + r;
    PrintEntryUnfold(e, r);
    QuotedUnfold(e.key, [':'] + value);
    StringRead(e.key, [':'] + value);
    var body := EscapeAll(e.key) + (['"'] + ([':'] + value));
    assert (['"'] + body)[1..] == body && ([':'] + value)[1..] == value;
    Starts("\"", body);
    Starts(":", value);
    hide Print, PrintEntry, Quoted, EscapeAll, ReadString, ReadValue, StartsWith;
    ReadPrint(e.value, r);
  }

  /** Printing and reading back is the identity. */
  lemma RoundTrip(v: Tree)
    ensures ReadValue(Print(v)) == Some((v, ""))
  {
    assert Print(v) + "" == Print(v);
    ReadPrint(v, "");
  }
}
