/**
 * When two canonical values print alike, for all values: surrogate pairs included. The law
 * speaks of the values only; the sort and the printer appear in its proof.
 */
module PrintedAlike {
  import opened PyText
  import JsonPrinter
  import JsonReader
  import opened CanonicalJson

  /** The keys of every dictionary are distinct, as Python's are. */
  ghost predicate WellKeyed(j: Json) {
    match j
    case JList(elems) => forall i :: 0 <= i < |elems| ==> WellKeyed(elems[i])
    case JDict(items) =>
      && (forall i, k :: 0 <= i < k < |items| ==> items[i].key != items[k].key)
      && forall i :: 0 <= i < |items| ==> WellKeyed(items[i].value)
    case _ => true
  }

  /** How many of the keys come before k. */
  function KeyRank(keys: seq<Text>, k: Text): nat {
    if keys == [] then 0 else (if TextLess(keys[0], k) then 1 else 0) + KeyRank(keys[1..], k)
  }

  function Keys(items: seq<JItem>): (keys: seq<Text>)
    ensures |keys| == |items| && forall i :: 0 <= i < |items| ==> keys[i] == items[i].key
  {
    seq(|items|, i requires 0 <= i < |items| => items[i].key)
  }

  /** The key's position in key order. */
  function Position(items: seq<JItem>, i: int): nat
    requires 0 <= i < |items|
  {
    KeyRank(Keys(items), items[i].key)
  }

  /** Strings alike up to joined surrogate pairs; dictionaries alike position by position in key order. */
  ghost predicate Alike(a: Json, b: Json)
    decreases a, b
  {
    match (a, b)
    case (JStr(s), JStr(t)) => Joined(s) == Joined(t)
    case (JList(x), JList(y)) => |x| == |y| && forall i :: 0 <= i < |x| ==> Alike(x[i], y[i])
    case (JDict(x), JDict(y)) =>
      && |x| == |y|
      && forall i, j :: 0 <= i < |x| && 0 <= j < |y| && Position(x, i) == Position(y, j) ==> AlikeItem(x[i], y[j])
    case _ => a == b
  }

  ghost predicate AlikeItem(p: JItem, q: JItem)
    decreases p, q
  {
    Joined(p.key) == Joined(q.key) && Alike(p.value, q.value)
  }

  // ---------------------------------------------------------------- positions in the sorted form

  function KeyedKeys(ks: seq<Keyed>): (keys: seq<Text>)
    ensures |keys| == |ks| && forall i :: 0 <= i < |ks| ==> keys[i] == ks[i].key
  {
    seq(|ks|, i requires 0 <= i < |ks| => ks[i].key)
  }

  lemma {:induction false} InsertRank(x: Keyed, ks: seq<Keyed>, k: Text)
    ensures |InsertKeyed(x, ks)| == |ks| + 1
    ensures KeyRank(KeyedKeys(InsertKeyed(x, ks)), k) == KeyRank(KeyedKeys([x] + ks), k)
  {
    hide TextLess, KeyRank, KeyedKeys;
    if ks != [] && !TextLess(x.key, ks[0].key) {
      var rest := ks[1..];
      assert ks == [ks[0]] + rest;
      InsertRank(x, rest, k);
      RankCons(ks[0], InsertKeyed(x, rest), k);
      RankCons(ks[0], rest, k);
      RankCons(x, rest, k);
      RankCons(x, ks, k);
    }
  }

  lemma RankCons(x: Keyed, ks: seq<Keyed>, k: Text)
    ensures KeyRank(KeyedKeys([x] + ks), k) == (if TextLess(x.key, k) then 1 else 0) + KeyRank(KeyedKeys(ks), k)
  {
    assert KeyedKeys([x] + ks)[1..] == KeyedKeys(ks);
  }

  lemma {:induction false} SortRank(ks: seq<Keyed>, k: Text)
    ensures |SortKeyed(ks)| == |ks|
    ensures KeyRank(KeyedKeys(SortKeyed(ks)), k) == KeyRank(KeyedKeys(ks), k)
  {
    hide TextLess, InsertKeyed, KeyRank, KeyedKeys;
    if ks != [] {
      SortRank(ks[1..], k);
      InsertRank(ks[0], SortKeyed(ks[1..]), k);
      RankCons(ks[0], SortKeyed(ks[1..]), k);
      RankCons(ks[0], ks[1..], k);
      assert ks == [ks[0]] + ks[1..];
    }
  }

  lemma {:induction false} NoneBefore(keys: seq<Text>, k: Text)
    requires forall i :: 0 <= i < |keys| ==> !TextLess(keys[i], k)
    ensures KeyRank(keys, k) == 0
  {
    hide TextLess;
    if keys != [] {
      NoneBefore(keys[1..], k);
    }
  }

  /** In a sorted list the rank of a key is its index. */
  lemma {:induction false} RankIsIndex(ks: seq<Keyed>, i: nat)
    requires KeysIncrease(ks) && i < |ks|
    ensures KeyRank(KeyedKeys(ks), ks[i].key) == i
  {
    var keys, k := KeyedKeys(ks), ks[i].key;
    assert keys[1..] == KeyedKeys(ks[1..]);
    if i == 0 {
      forall j | 0 <= j < |keys|
        ensures !TextLess(keys[j], k)
      {
        TextLessTotal(keys[j], k);
      }
      NoneBefore(keys, k);
    } else {
      RankIsIndex(ks[1..], i - 1);
      assert TextLess(keys[0], k);
    }
  }

  /** The printed entry of an item. */
  function EntryOf(item: JItem): JsonPrinter.Entry {
    JsonPrinter.Entry(Utf16(item.key), Normal(item.value))
  }

  /** The entries a dictionary prints, in print order. */
  function Printed(x: seq<JItem>): seq<JsonPrinter.Entry> {
    ToEntries(SortKeyed(NormalItems(x)))
  }

  lemma DistinctItems(x: seq<JItem>)
    requires WellKeyed(JDict(x))
    ensures KeysDistinct(NormalItems(x)) && KeyedKeys(NormalItems(x)) == Keys(x)
  {
    var ks := NormalItems(x);
    assert forall i :: 0 <= i < |ks| ==> ks[i] == NormalItem(x[i]) && ks[i].key == x[i].key;
  }

  /** Every item is printed at its position in key order. */
  lemma PrintedAt(x: seq<JItem>, i: int)
    requires WellKeyed(JDict(x)) && 0 <= i < |x|
    ensures |Printed(x)| == |x| && Position(x, i) < |x|
    ensures Printed(x)[Position(x, i)] == EntryOf(x[i])
  {
    DistinctItems(x);
    var ks := NormalItems(x);
    SortKeyedSorts(ks);
    SortRank(ks, x[i].key);
    var s := SortKeyed(ks);
    assert ks[i] == NormalItem(x[i]);
    assert ks[i] in ks && ks[i] in s;
    hide SortKeyed, KeyRank, KeysDistinct, NormalItems;
    var p :| 0 <= p < |s| && s[p] == ks[i];
    RankIsIndex(s, p);
  }

  /** Every printed entry is some item's. */
  lemma PrintedFrom(x: seq<JItem>, p: int) returns (i: int)
    requires WellKeyed(JDict(x)) && 0 <= p < |Printed(x)|
    ensures 0 <= i < |x| && Position(x, i) == p
  {
    DistinctItems(x);
    var ks := NormalItems(x);
    SortKeyedSorts(ks);
    var s := SortKeyed(ks);
    assert s[p] in s && s[p] in ks;
    i :| 0 <= i < |ks| && ks[i] == s[p];
    assert ks[i] == NormalItem(x[i]);
    SortRank(ks, x[i].key);
    hide SortKeyed, KeyRank, KeysDistinct, NormalItems;
    RankIsIndex(s, p);
  }

  lemma PrintedIffAlike(x: seq<JItem>, y: seq<JItem>)
    requires WellKeyed(JDict(x)) && WellKeyed(JDict(y))
    requires forall i, j :: 0 <= i < |x| && 0 <= j < |y| ==> (EntryOf(x[i]) == EntryOf(y[j]) <==> AlikeItem(x[i], y[j]))
    ensures Printed(x) == Printed(y) <==> Alike(JDict(x), JDict(y))
  {
    PrintedSize(x);
    PrintedSize(y);
    hide Printed, EntryOf, AlikeItem, Position, WellKeyed;
    if Printed(x) == Printed(y) {
      forall i, j | 0 <= i < |x| && 0 <= j < |y| && Position(x, i) == Position(y, j)
        ensures AlikeItem(x[i], y[j])
      {
        PrintedAt(x, i);
        PrintedAt(y, j);
      }
    }
    if Alike(JDict(x), JDict(y)) {
      forall p | 0 <= p < |Printed(x)|
        ensures Printed(x)[p] == Printed(y)[p]
      {
        var i := PrintedFrom(x, p);
        var j := PrintedFrom(y, p);
        PrintedAt(x, i);
        PrintedAt(y, j);
        assert AlikeItem(x[i], y[j]);
      }
    }
  }

  // ---------------------------------------------------------------- what is printed

  /** t shows j: scalars as they are, text by its code units, dictionary items in key order. */
  ghost predicate Shows(j: Json, t: JsonPrinter.Tree) {
    match (j, t)
    case (JNull, TNull) => true
    case (JBool(b), TBool(c)) => b == c
    case (JInt(n), TInt(m)) => n == m
    case (JFloat(text), TFloat(repr)) => text == repr
    case (JStr(text), TStr(units)) => units == Utf16(text)
    case (JList(elems), TList(out)) => |out| == |elems| && forall i :: 0 <= i < |elems| ==> Shows(elems[i], out[i])
    case (JDict(items), TDict(entries)) =>
      && |entries| == |items|
      && forall i :: 0 <= i < |items| ==>
           && Position(items, i) < |entries|
           && entries[Position(items, i)].key == Utf16(items[i].key)
           && Shows(items[i].value, entries[Position(items, i)].value)
    case _ => false
  }

  /** The printed tree shows the value. */
  lemma {:induction false} NormalShows(j: Json)
    requires WellKeyed(j)
    ensures Shows(j, Normal(j))
  {
    match j
    case JList(elems) =>
      forall i | 0 <= i < |elems|
        ensures Shows(elems[i], NormalElems(elems)[i])
      {
        NormalShows(elems[i]);
      }
    case JDict(items) =>
      PrintedSize(items);
      forall i | 0 <= i < |items|
        ensures Position(items, i) < |items| && Printed(items)[Position(items, i)] == EntryOf(items[i])
        ensures Shows(items[i].value, Normal(items[i].value))
      {
        PrintedAt(items, i);
        NormalShows(items[i].value);
      }
      hide Position, SortKeyed, ToEntries, NormalItems;
    case _ =>
  }

  /** The printed text, read back as JSON, shows the value. */
  lemma DumpsReadsBack(j: Json)
    requires WellKeyed(j)
    ensures JsonReader.ReadValue(Dumps(j)).Some?
    ensures var (t, rest) := JsonReader.ReadValue(Dumps(j)).value; rest == "" && Shows(j, t)
  {
    hide Shows, WellKeyed;
    JsonReader.RoundTrip(Normal(j));
    NormalShows(j);
  }

  lemma PrintedSize(x: seq<JItem>)
    ensures |Printed(x)| == |x|
  {
    SortRank(NormalItems(x), []);
  }

  // ---------------------------------------------------------------- the law

  lemma {:induction false} NormalIffAlike(a: Json, b: Json)
    requires WellKeyed(a) && WellKeyed(b)
    ensures Normal(a) == Normal(b) <==> Alike(a, b)
    decreases a
  {
    match (a, b)
    case (JStr(s), JStr(t)) => SameUnitsIff(s, t);
    case (JList(x), JList(y)) => ElemsIffAlike(x, y);
    case (JDict(x), JDict(y)) =>
      forall i, j | 0 <= i < |x| && 0 <= j < |y|
        ensures EntryOf(x[i]) == EntryOf(y[j]) <==> AlikeItem(x[i], y[j])
      {
        NormalIffAlike(x[i].value, y[j].value);
        SameUnitsIff(x[i].key, y[j].key);
      }
      PrintedIffAlike(x, y);
      UnfoldDict(x);
      UnfoldDict(y);
    case _ =>
  }

  lemma {:induction false} ElemsIffAlike(x: seq<Json>, y: seq<Json>)
    requires WellKeyed(JList(x)) && WellKeyed(JList(y))
    ensures Normal(JList(x)) == Normal(JList(y)) <==> Alike(JList(x), JList(y))
    decreases x
  {
    forall i | 0 <= i < |x| && |x| == |y|
      ensures Normal(x[i]) == Normal(y[i]) <==> Alike(x[i], y[i])
    {
      NormalIffAlike(x[i], y[i]);
    }
    if Normal(JList(x)) == Normal(JList(y)) {
      assert |x| == |NormalElems(x)| == |NormalElems(y)| == |y|;
      forall i | 0 <= i < |x|
        ensures Alike(x[i], y[i])
      {
        assert NormalElems(x)[i] == NormalElems(y)[i];
      }
    }
    if Alike(JList(x), JList(y)) {
      assert NormalElems(x) == NormalElems(y);
    }
  }

  /** The exact law of the printer, for all values: the texts are equal exactly when the values are alike. */
  lemma DumpsIffAlike(a: Json, b: Json)
    requires WellKeyed(a) && WellKeyed(b)
    ensures Dumps(a) == Dumps(b) <==> Alike(a, b)
  {
    JsonPrinter.PrintInjective(Normal(a), Normal(b));
    NormalIffAlike(a, b);
  }

  /** For one: a surrogate pair and the astral character it spells. */
  lemma SurrogatesCollide()
    ensures var pair, astral := JStr([0xD83D, 0xDE00]), JStr([0x1F600]);
            Dumps(pair) == Dumps(astral) && !SameValue(pair, astral)
  {
    var t: Text := [0xD83D, 0xDE00];
    assert Joined(t) == [0x1F600] by {
      assert t[2..] == [];
    }
    PairsCollide(t);
    hide Dumps, Joined, PairFree;
  }

  /** Clean values are well keyed. */
  lemma {:induction false} CleanIsWellKeyed(j: Json)
    requires Clean(j)
    ensures WellKeyed(j)
  {
    match j
    case JList(elems) =>
      forall i | 0 <= i < |elems|
        ensures WellKeyed(elems[i])
      {
        CleanIsWellKeyed(elems[i]);
      }
    case JDict(items) =>
      forall i | 0 <= i < |items|
        ensures WellKeyed(items[i].value)
      {
        CleanIsWellKeyed(items[i].value);
      }
    case _ =>
  }

  /** Without surrogate pairs, alike values are the same value. */
  lemma AlikeIffSame(a: Json, b: Json)
    requires Clean(a) && Clean(b)
    ensures Alike(a, b) <==> SameValue(a, b)
  {
    CleanIsWellKeyed(a);
    CleanIsWellKeyed(b);
    DumpsIffAlike(a, b);
    DumpsIffSame(a, b);
  }

  /** A string collides with its joined form, a different string, exactly when it holds a surrogate pair. */
  lemma PairsCollide(t: Text)
    ensures Dumps(JStr(t)) == Dumps(JStr(Joined(t))) && Clean(JStr(Joined(t)))
    ensures SameValue(JStr(t), JStr(Joined(t))) <==> PairFree(t)
  {
    JoinedKeepsUnits(t);
    JoinedIsPairFree(t);
    JoinedIffPairFree(t);
  }
}
