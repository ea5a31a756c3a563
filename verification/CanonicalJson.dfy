/**
 * `_canonical` in model_fingerprint.py and the sorted form `json.dumps` prints:
 * which values are accepted, and when two of them print alike.
 */
module CanonicalJson {
  import opened Wrappers
  import opened PyText
  import opened JsonPrinter

  // ---------------------------------------------------------------- Python values

  datatype PyFloat = FiniteFloat(repr: FloatText) | NonFiniteFloat

  datatype PyKey = KStr(text: Text) | KOther

  /**
   * A payload value. PArray is anything with a `tolist()`; POther is any other type.
   * Dictionary items are in insertion order, and a key occurs once.
   */
  datatype PyValue =
    | PNone
    | PBool(b: bool)
    | PInt(n: int)
    | PFloat(f: PyFloat)
    | PStr(text: Text)
    | PDict(items: seq<PyItem>)
    | PList(elems: seq<PyValue>)
    | PTuple(elems: seq<PyValue>)
    | PArray(listed: PyValue)
    | POther

  datatype PyItem = PyItem(key: PyKey, value: PyValue)

  /** The pure-JSON structures `_canonical` returns. */
  datatype Json =
    | JNull
    | JBool(b: bool)
    | JInt(n: int)
    | JFloat(repr: FloatText)
    | JStr(text: Text)
    | JList(elems: seq<Json>)
    | JDict(items: seq<JItem>)

  datatype JItem = JItem(key: Text, value: Json)

  datatype CanonicalError = NonFiniteValue(path: Text) | NonStringKey(path: Text) | UnsupportedType(path: Text)

  // ---------------------------------------------------------------- canonicalisation

  function Canonical(v: PyValue, path: Text): Result<Json, CanonicalError>
    decreases v, 0
  {
    match v
    case PNone => Ok(JNull)
    case PBool(b) => Ok(JBool(b))
    case PInt(n) => Ok(JInt(n))
    case PStr(text) => Ok(JStr(text))
    case PFloat(FiniteFloat(text)) => Ok(JFloat(text))
    case PFloat(NonFiniteFloat) => Err(NonFiniteValue(path))
    case PDict(items) => var out :- CanonicalItems(items, path); Ok(JDict(out))
    case PList(elems) => var out :- CanonicalElems(elems, path, 0); Ok(JList(out))
    case PTuple(elems) => var out :- CanonicalElems(elems, path, 0); Ok(JList(out))
    case PArray(listed) => Canonical(listed, path)
    case POther => Err(UnsupportedType(path))
  }

  /** The dictionary loop, over the items left to copy. */
  function CanonicalItems(items: seq<PyItem>, path: Text): Result<seq<JItem>, CanonicalError>
    decreases items, 0
  {
    if items == [] then Ok([])
    else
      var head :- CanonicalItem(items[0], path);
      var rest :- CanonicalItems(items[1..], path);
      Ok([head] + rest)
  }

  function CanonicalItem(item: PyItem, path: Text): Result<JItem, CanonicalError>
    decreases item, 1
  {
    if item.key.KOther? then Err(NonStringKey(path))
    else
      var value :- Canonical(item.value, path + Chars(".") + item.key.text);
      Ok(JItem(item.key.text, value))
  }

  /** The list comprehension, over the elements from position i. */
  function CanonicalElems(elems: seq<PyValue>, path: Text, i: nat): Result<seq<Json>, CanonicalError>
    decreases elems, 0
  {
    if elems == [] then Ok([])
    else
      var head :- Canonical(elems[0], path + Chars("[") + Chars(Decimal(i)) + Chars("]"));
      var rest :- CanonicalElems(elems[1..], path, i + 1);
      Ok([head] + rest)
  }

  /** `_canonical` with its dictionary loop filling `out` item by item. */
  method CanonicalOf(v: PyValue, path: Text) returns (r: Result<Json, CanonicalError>)
    ensures r == Canonical(v, path)
    decreases v
  {
    match v
    case PDict(items) =>
      var out: seq<JItem> := [];
      assert items[0..] == items;
      PrependedNothing(CanonicalItems(items, path));
      for i := 0 to |items|
        invariant CanonicalItems(items, path) == Prepended(out, CanonicalItems(items[i..], path))
      {
        if items[i].key.KOther? {
          return Err(NonStringKey(path));
        }
        var value :- CanonicalOf(items[i].value, path + Chars(".") + items[i].key.text);
        PrependedAppend(out, JItem(items[i].key.text, value), CanonicalItems(items[i + 1..], path));
        assert items[i..][1..] == items[i + 1..];
        out := out + [JItem(items[i].key.text, value)];
      }
      assert items[|items|..] == [];
      assert out + [] == out;
      r := Ok(JDict(out));
    case PArray(listed) =>
      r := CanonicalOf(listed, path);
    case _ =>
      r := Canonical(v, path);
  }

  function Prepended(out: seq<JItem>, r: Result<seq<JItem>, CanonicalError>): Result<seq<JItem>, CanonicalError> {
    match r
    case Ok(rest) => Ok(out + rest)
    case Err(e) => Err(e)
  }

  lemma PrependedNothing(r: Result<seq<JItem>, CanonicalError>)
    ensures Prepended([], r) == r
  {
    if r.Ok? {
      assert [] + r.value == r.value;
    }
  }

  lemma PrependedAppend(out: seq<JItem>, x: JItem, r: Result<seq<JItem>, CanonicalError>)
    ensures Prepended(out + [x], r) == Prepended(out, Prepended([x], r))
  {
    if r.Ok? {
      assert out + [x] + r.value == out + ([x] + r.value);
    }
  }

  /** What can be fingerprinted: finite floats, string keys, no foreign types, at any depth. */
  predicate Representable(v: PyValue) {
    match v
    case PFloat(f) => f.FiniteFloat?
    case PDict(items) => forall i :: 0 <= i < |items| ==> items[i].key.KStr? && Representable(items[i].value)
    case PList(elems) => forall i :: 0 <= i < |elems| ==> Representable(elems[i])
    case PTuple(elems) => forall i :: 0 <= i < |elems| ==> Representable(elems[i])
    case PArray(listed) => Representable(listed)
    case POther => false
    case _ => true
  }

  /** Canonicalisation succeeds exactly on representable values. */
  lemma {:induction false} CanonicalAccepts(v: PyValue, path: Text)
    ensures Canonical(v, path).Ok? <==> Representable(v)
    decreases v, 0
  {
    match v
    case PDict(items) => ItemsAccepted(items, path);
    case PList(elems) => ElemsAccepted(elems, path, 0);
    case PTuple(elems) => ElemsAccepted(elems, path, 0);
    case PArray(listed) => CanonicalAccepts(listed, path);
    case _ =>
  }

  lemma {:induction false} ItemsAccepted(items: seq<PyItem>, path: Text)
    ensures CanonicalItems(items, path).Ok? <==>
            forall i :: 0 <= i < |items| ==> items[i].key.KStr? && Representable(items[i].value)
    decreases items, 0
  {
    if items != [] {
      ItemAccepted(items[0], path);
      ItemsAccepted(items[1..], path);
      assert forall i :: 1 <= i < |items| ==> items[i] == items[1..][i - 1];
    }
  }

  lemma {:induction false} ItemAccepted(item: PyItem, path: Text)
    ensures CanonicalItem(item, path).Ok? <==> item.key.KStr? && Representable(item.value)
    decreases item, 1
  {
    if item.key.KStr? {
      CanonicalAccepts(item.value, path + Chars(".") + item.key.text);
    }
  }

  lemma {:induction false} ElemsAccepted(elems: seq<PyValue>, path: Text, i: nat)
    ensures CanonicalElems(elems, path, i).Ok? <==> forall k :: 0 <= k < |elems| ==> Representable(elems[k])
    decreases elems, 0
  {
    if elems != [] {
      CanonicalAccepts(elems[0], path + Chars("[") + Chars(Decimal(i)) + Chars("]"));
      ElemsAccepted(elems[1..], path, i + 1);
      assert forall k :: 1 <= k < |elems| ==> elems[k] == elems[1..][k - 1];
    }
  }

  // ---------------------------------------------------------------- what the canonical form is

  /** j says the same as v: scalars as they are, lists and tuples element by element, dictionaries item by item. */
  ghost predicate Represents(v: PyValue, j: Json) {
    match (v, j)
    case (PNone, JNull) => true
    case (PBool(b), JBool(c)) => b == c
    case (PInt(n), JInt(m)) => n == m
    case (PFloat(FiniteFloat(text)), JFloat(repr)) => text == repr
    case (PStr(s), JStr(t)) => s == t
    case (PDict(items), JDict(out)) =>
      && |items| == |out|
      && forall i :: 0 <= i < |items| ==> items[i].key == KStr(out[i].key) && Represents(items[i].value, out[i].value)
    case (PList(elems), JList(out)) =>
      |elems| == |out| && forall i :: 0 <= i < |elems| ==> Represents(elems[i], out[i])
    case (PTuple(elems), JList(out)) =>
      |elems| == |out| && forall i :: 0 <= i < |elems| ==> Represents(elems[i], out[i])
    case (PArray(listed), _) => Represents(listed, j)
    case _ => false
  }

  ghost predicate RepresentsItem(item: PyItem, out: JItem) {
    item.key == KStr(out.key) && Represents(item.value, out.value)
  }

  /** Whatever canonicalisation returns represents the value. */
  lemma {:induction false} CanonicalRepresents(v: PyValue, path: Text)
    requires Canonical(v, path).Ok?
    ensures Represents(v, Canonical(v, path).value)
    decreases v, 0
  {
    match v
    case PDict(items) => ItemsRepresent(items, path);
    case PList(elems) => ElemsRepresent(elems, path, 0);
    case PTuple(elems) => ElemsRepresent(elems, path, 0);
    case PArray(listed) => CanonicalRepresents(listed, path);
    case _ =>
  }

  lemma {:induction false} ItemsRepresent(items: seq<PyItem>, path: Text)
    requires CanonicalItems(items, path).Ok?
    ensures var out := CanonicalItems(items, path).value;
            |out| == |items| && forall i :: 0 <= i < |items| ==> RepresentsItem(items[i], out[i])
    decreases items, 0
  {
    hide Represents;
    if items != [] {
      ItemRepresents(items[0], path);
      ItemsRepresent(items[1..], path);
      assert forall i :: 1 <= i < |items| ==> items[i] == items[1..][i - 1];
    }
  }

  lemma {:induction false} ItemRepresents(item: PyItem, path: Text)
    requires CanonicalItem(item, path).Ok?
    ensures RepresentsItem(item, CanonicalItem(item, path).value)
    decreases item, 1
  {
    hide Represents;
    CanonicalRepresents(item.value, path + Chars(".") + item.key.text);
  }

  lemma {:induction false} ElemsRepresent(elems: seq<PyValue>, path: Text, i: nat)
    requires CanonicalElems(elems, path, i).Ok?
    ensures var out := CanonicalElems(elems, path, i).value;
            |out| == |elems| && forall k :: 0 <= k < |elems| ==> Represents(elems[k], out[k])
    decreases elems, 0
  {
    if elems != [] {
      var out, tail := CanonicalElems(elems, path, i).value, CanonicalElems(elems[1..], path, i + 1).value;
      CanonicalRepresents(elems[0], path + Chars("[") + Chars(Decimal(i)) + Chars("]"));
      ElemsRepresent(elems[1..], path, i + 1);
      assert out == [out[0]] + tail;
      hide Represents, Canonical, CanonicalElems;
      assert forall k :: 1 <= k < |elems| ==> elems[k] == elems[1..][k - 1] && out[k] == tail[k - 1];
    }
  }

  // ---------------------------------------------------------------- what a refusal says

  /** e names the first part of v, in order, that cannot be represented, by its key path. */
  ghost predicate Faults(v: PyValue, path: Text, e: CanonicalError)
    decreases v, 0
  {
    match v
    case PFloat(NonFiniteFloat) => e == NonFiniteValue(path)
    case POther => e == UnsupportedType(path)
    case PArray(listed) => Faults(listed, path, e)
    case PDict(items) =>
      exists i :: 0 <= i < |items| && ItemFaults(items[i], path, e)
        && forall k :: 0 <= k < i ==> items[k].key.KStr? && Representable(items[k].value)
    case PList(elems) => ElemsFault(elems, path, e)
    case PTuple(elems) => ElemsFault(elems, path, e)
    case _ => false
  }

  ghost predicate ItemFaults(item: PyItem, path: Text, e: CanonicalError)
    decreases item, 1
  {
    match item.key
    case KOther => e == NonStringKey(path)
    case KStr(key) => Faults(item.value, path + Chars(".") + key, e)
  }

  ghost predicate ElemsFault(elems: seq<PyValue>, path: Text, e: CanonicalError)
    decreases elems, 0
  {
    exists i :: 0 <= i < |elems| && Faults(elems[i], path + Chars("[") + Chars(Decimal(i)) + Chars("]"), e)
      && forall k :: 0 <= k < i ==> Representable(elems[k])
  }

  /** A refusal names the first fault. */
  lemma {:induction false} CanonicalFaults(v: PyValue, path: Text)
    requires Canonical(v, path).Err?
    ensures Faults(v, path, Canonical(v, path).error)
    decreases v, 0
  {
    match v
    case PDict(items) => var i := ItemsFault(items, path);
    case PList(elems) => var i := ElemsFaultAt(elems, path, 0);
    case PTuple(elems) => var i := ElemsFaultAt(elems, path, 0);
    case PArray(listed) => CanonicalFaults(listed, path);
    case _ =>
  }

  lemma {:induction false} ItemsFault(items: seq<PyItem>, path: Text) returns (i: nat)
    requires CanonicalItems(items, path).Err?
    ensures i < |items| && ItemFaults(items[i], path, CanonicalItems(items, path).error)
    ensures forall k :: 0 <= k < i ==> items[k].key.KStr? && Representable(items[k].value)
    decreases items, 0
  {
    hide Faults, Representable;
    ItemAccepted(items[0], path);
    if CanonicalItem(items[0], path).Err? {
      ItemFaultsHere(items[0], path);
      i := 0;
    } else {
      var j := ItemsFault(items[1..], path);
      i := j + 1;
      assert forall k :: 1 <= k < |items| ==> items[k] == items[1..][k - 1];
    }
  }

  lemma {:induction false} ItemFaultsHere(item: PyItem, path: Text)
    requires CanonicalItem(item, path).Err?
    ensures ItemFaults(item, path, CanonicalItem(item, path).error)
    decreases item, 1
  {
    hide Faults;
    if item.key.KStr? {
      CanonicalFaults(item.value, path + Chars(".") + item.key.text);
    }
  }

  lemma {:induction false} ElemsFaultAt(elems: seq<PyValue>, path: Text, from: nat) returns (i: nat)
    requires CanonicalElems(elems, path, from).Err?
    ensures i < |elems|
    ensures Faults(elems[i], path + Chars("[") + Chars(Decimal(from + i)) + Chars("]"),
                   CanonicalElems(elems, path, from).error)
    ensures forall k :: 0 <= k < i ==> Representable(elems[k])
    decreases elems, 0
  {
    hide Faults, Representable, Canonical, CanonicalElems;
    var here := path + Chars("[") + Chars(Decimal(from)) + Chars("]");
    ElemsRefused(elems, path, from);
    CanonicalAccepts(elems[0], here);
    if Canonical(elems[0], here).Err? {
      CanonicalFaults(elems[0], here);
      i := 0;
    } else {
      var j := ElemsFaultAt(elems[1..], path, from + 1);
      i := j + 1;
      assert forall k :: 1 <= k < |elems| ==> elems[k] == elems[1..][k - 1];
    }
  }

  /** A list is refused for its first element or for what the others are. */
  lemma ElemsRefused(elems: seq<PyValue>, path: Text, from: nat)
    requires CanonicalElems(elems, path, from).Err?
    ensures elems != []
    ensures var r := CanonicalElems(elems, path, from);
            match Canonical(elems[0], path + Chars("[") + Chars(Decimal(from)) + Chars("]"))
            case Err(e) => r.error == e
            case Ok(_) =>
              && CanonicalElems(elems[1..], path, from + 1).Err?
              && r.error == CanonicalElems(elems[1..], path, from + 1).error
  {
    hide Canonical;
  }

  // ---------------------------------------------------------------- the sorted form

  datatype Keyed = Keyed(key: Text, value: Tree)

  /** Entries in strictly increasing key order. */
  ghost predicate KeysIncrease(ks: seq<Keyed>) {
    forall i, j :: 0 <= i < j < |ks| ==> TextLess(ks[i].key, ks[j].key)
  }

  function InsertKeyed(x: Keyed, ks: seq<Keyed>): seq<Keyed> {
    if ks == [] || TextLess(x.key, ks[0].key) then [x] + ks else [ks[0]] + InsertKeyed(x, ks[1..])
  }

  /** `sorted(d.items())`. */
  function SortKeyed(ks: seq<Keyed>): seq<Keyed> {
    if ks == [] then [] else InsertKeyed(ks[0], SortKeyed(ks[1..]))
  }

  function ToEntries(ks: seq<Keyed>): (es: seq<Entry>)
    ensures |es| == |ks|
    ensures forall i :: 0 <= i < |ks| ==> es[i] == Entry(Utf16(ks[i].key), ks[i].value)
  {
    if ks == [] then [] else [Entry(Utf16(ks[0].key), ks[0].value)] + ToEntries(ks[1..])
  }

  /** The tree `json.dumps(j, sort_keys=True)` prints. */
  function Normal(j: Json): Tree
    decreases j, 0
  {
    match j
    case JNull => TNull
    case JBool(b) => TBool(b)
    case JInt(n) => TInt(n)
    case JFloat(repr) => TFloat(repr)
    case JStr(text) => TStr(Utf16(text))
    case JList(elems) => TList(NormalElems(elems))
    case JDict(items) => TDict(ToEntries(SortKeyed(NormalItems(items))))
  }

  function NormalElems(elems: seq<Json>): (ts: seq<Tree>)
    ensures |ts| == |elems|
    ensures forall i :: 0 <= i < |elems| ==> ts[i] == Normal(elems[i])
    decreases elems, 0
  {
    if elems == [] then [] else [Normal(elems[0])] + NormalElems(elems[1..])
  }

  function NormalItem(item: JItem): Keyed
    decreases item, 1
  {
    Keyed(item.key, Normal(item.value))
  }

  function NormalItems(items: seq<JItem>): (ks: seq<Keyed>)
    ensures |ks| == |items|
    ensures forall i :: 0 <= i < |items| ==> ks[i] == NormalItem(items[i])
    decreases items, 0
  {
    if items == [] then [] else [NormalItem(items[0])] + NormalItems(items[1..])
  }

  /** `json.dumps(j, sort_keys=True, separators=(",", ":"), allow_nan=False)`. */
  function Dumps(j: Json): string {
    Print(Normal(j))
  }

  ghost predicate KeysDistinct(ks: seq<Keyed>) {
    forall i, j :: 0 <= i < j < |ks| ==> ks[i].key != ks[j].key
  }

  lemma {:induction false} InsertMembers(x: Keyed, ks: seq<Keyed>, y: Keyed)
    ensures y in InsertKeyed(x, ks) <==> y == x || y in ks
  {
    if ks != [] && !TextLess(x.key, ks[0].key) {
      InsertMembers(x, ks[1..], y);
      assert y in ks <==> y == ks[0] || y in ks[1..];
    }
  }

  lemma {:induction false} InsertKeepsOrder(x: Keyed, ks: seq<Keyed>)
    requires KeysIncrease(ks) && forall y :: y in ks ==> y.key != x.key
    ensures KeysIncrease(InsertKeyed(x, ks))
  {
    if ks == [] {
    } else if TextLess(x.key, ks[0].key) {
      forall y | y in ks
        ensures TextLess(x.key, y.key)
      {
        FirstKeyLeast(ks, y);
        if y != ks[0] {
          TextLessTransitive(x.key, ks[0].key, y.key);
        }
      }
      ConsIncreases(x, ks);
    } else {
      assert ks[0] in ks;
      TextLessTotal(x.key, ks[0].key);
      InsertKeepsOrder(x, ks[1..]);
      forall y | y in InsertKeyed(x, ks[1..])
        ensures TextLess(ks[0].key, y.key)
      {
        InsertMembers(x, ks[1..], y);
        if y != x {
          var i :| 0 <= i < |ks[1..]| && ks[1..][i] == y;
          assert ks[i + 1] == y;
        }
      }
      ConsIncreases(ks[0], InsertKeyed(x, ks[1..]));
    }
  }

  lemma FirstKeyLeast(ks: seq<Keyed>, y: Keyed)
    requires KeysIncrease(ks) && y in ks
    ensures y == ks[0] || TextLess(ks[0].key, y.key)
  {
  }

  lemma ConsIncreases(x: Keyed, ks: seq<Keyed>)
    requires KeysIncrease(ks) && forall y :: y in ks ==> TextLess(x.key, y.key)
    ensures KeysIncrease([x] + ks)
  {
  }

  /** Sorting distinct keys keeps the entries and orders them. */
  lemma {:induction false} SortKeyedSorts(ks: seq<Keyed>)
    requires KeysDistinct(ks)
    ensures KeysIncrease(SortKeyed(ks))
    ensures forall y :: y in SortKeyed(ks) <==> y in ks
  {
    if ks != [] {
      SortKeyedSorts(ks[1..]);
      assert forall y :: y in ks <==> y == ks[0] || y in ks[1..];
      forall y | y in SortKeyed(ks[1..])
        ensures y.key != ks[0].key
      {
        var i :| 0 <= i < |ks[1..]| && ks[1..][i] == y;
        assert ks[i + 1] == y;
      }
      InsertKeepsOrder(ks[0], SortKeyed(ks[1..]));
      forall y
        ensures y in SortKeyed(ks) <==> y in ks
      {
        InsertMembers(ks[0], SortKeyed(ks[1..]), y);
      }
    }
  }

  /** Strictly ordered entries are determined by their set. */
  lemma {:induction false} OrderedUnique(a: seq<Keyed>, b: seq<Keyed>)
    requires KeysIncrease(a) && KeysIncrease(b)
    requires forall y :: y in a <==> y in b
    ensures a == b
  {
    if a == [] {
      HeadIsMember(b);
    } else {
      assert a[0] in a && a[0] in b;
      assert b[0] in b && b[0] in a;
      FirstKeyLeast(a, b[0]);
      FirstKeyLeast(b, a[0]);
      TextLessTotal(a[0].key, b[0].key);
      assert a[0] == b[0];
      forall y
        ensures y in a[1..] <==> y in b[1..]
      {
        TailMember(a, y);
        TailMember(b, y);
      }
      OrderedUnique(a[1..], b[1..]);
    }
  }

  lemma TailMember(a: seq<Keyed>, y: Keyed)
    requires KeysIncrease(a) && a != []
    ensures y in a[1..] <==> y in a && y != a[0]
  {
    TextLessTotal(a[0].key, a[0].key);
    if y in a[1..] {
      var i :| 0 <= i < |a[1..]| && a[1..][i] == y;
      assert a[i + 1] == y;
    }
    assert y in a <==> y == a[0] || y in a[1..];
  }

  // ---------------------------------------------------------------- when two values print alike

  /** Equality of canonical values: dictionaries as mappings, whatever their order. */
  ghost predicate SameValue(a: Json, b: Json)
    decreases a, b
  {
    match (a, b)
    case (JList(x), JList(y)) => |x| == |y| && forall i :: 0 <= i < |x| ==> SameValue(x[i], y[i])
    case (JDict(x), JDict(y)) => SameItems(x, y)
    case _ => a == b
  }

  /** Each item of either dictionary has its like in the other. */
  ghost predicate SameItems(x: seq<JItem>, y: seq<JItem>)
    decreases x, y
  {
    && (forall i {:trigger LikeSome(x[i], y)} :: 0 <= i < |x| ==> LikeSome(x[i], y))
    && (forall j {:trigger SomeLike(x, y[j])} :: 0 <= j < |y| ==> SomeLike(x, y[j]))
  }

  ghost predicate LikeSome(p: JItem, y: seq<JItem>)
    decreases p, y
  {
    exists j :: 0 <= j < |y| && SameItem(p, y[j])
  }

  ghost predicate SomeLike(x: seq<JItem>, q: JItem)
    decreases x, q
  {
    exists i :: 0 <= i < |x| && SameItem(x[i], q)
  }

  ghost predicate SameItem(p: JItem, q: JItem)
    decreases p, q
  {
    p.key == q.key && SameValue(p.value, q.value)
  }

  /** Keys of every dictionary are distinct, and no string holds a surrogate pair. */
  ghost predicate Clean(j: Json) {
    match j
    case JStr(text) => PairFree(text)
    case JList(elems) => forall i :: 0 <= i < |elems| ==> Clean(elems[i])
    case JDict(items) =>
      && (forall i, k :: 0 <= i < k < |items| ==> items[i].key != items[k].key)
      && forall i :: 0 <= i < |items| ==> PairFree(items[i].key) && Clean(items[i].value)
    case _ => true
  }

  lemma {:induction false} EntriesInjective(a: seq<Keyed>, b: seq<Keyed>)
    requires forall i :: 0 <= i < |a| ==> PairFree(a[i].key)
    requires forall i :: 0 <= i < |b| ==> PairFree(b[i].key)
    requires ToEntries(a) == ToEntries(b)
    ensures a == b
  {
    assert |a| == |ToEntries(a)| == |ToEntries(b)| == |b|;
    forall i | 0 <= i < |a|
      ensures a[i] == b[i]
    {
      assert ToEntries(a)[i] == ToEntries(b)[i];
      Utf16Injective(a[i].key, b[i].key);
    }
  }

  /** Two sorted dictionaries print the same tree exactly when they hold the same keyed trees. */
  lemma SortedEntriesEqual(a: seq<Keyed>, b: seq<Keyed>)
    requires KeysDistinct(a) && KeysDistinct(b)
    requires forall y :: y in a || y in b ==> PairFree(y.key)
    ensures ToEntries(SortKeyed(a)) == ToEntries(SortKeyed(b)) <==> forall y :: y in a <==> y in b
  {
    SortKeyedSorts(a);
    SortKeyedSorts(b);
    var x, z := SortKeyed(a), SortKeyed(b);
    hide SortKeyed, ToEntries, PairFree, KeysIncrease, KeysDistinct;
    if ToEntries(x) == ToEntries(z) {
      forall i | 0 <= i < |x|
        ensures PairFree(x[i].key)
      {
        assert x[i] in x;
      }
      forall i | 0 <= i < |z|
        ensures PairFree(z[i].key)
      {
        assert z[i] in z;
      }
      EntriesInjective(x, z);
      assert forall y :: y in a <==> y in x;
    }
    if forall y :: y in a <==> y in b {
      OrderedUnique(x, z);
    }
  }

  /** Clean dictionaries print the same tree exactly when they hold the same keyed trees. */
  lemma DictNormalEqual(x: seq<JItem>, y: seq<JItem>)
    requires Clean(JDict(x)) && Clean(JDict(y))
    ensures Normal(JDict(x)) == Normal(JDict(y)) <==> forall k :: k in NormalItems(x) <==> k in NormalItems(y)
  {
    CleanItems(x);
    CleanItems(y);
    UnfoldDict(x);
    UnfoldDict(y);
    hide PairFree, Clean, NormalItems, ToEntries, SortKeyed, KeysDistinct, Normal;
    SortedEntriesEqual(NormalItems(x), NormalItems(y));
  }

  lemma UnfoldDict(x: seq<JItem>)
    ensures Normal(JDict(x)) == TDict(ToEntries(SortKeyed(NormalItems(x))))
  {
  }

  lemma CleanItems(x: seq<JItem>)
    requires Clean(JDict(x))
    ensures KeysDistinct(NormalItems(x))
    ensures forall k :: k in NormalItems(x) ==> PairFree(k.key)
  {
    hide PairFree;
    var ks := NormalItems(x);
    forall k | k in ks
      ensures PairFree(k.key)
    {
      var i :| 0 <= i < |ks| && ks[i] == k;
      assert ks[i] == NormalItem(x[i]);
    }
    forall i, j | 0 <= i < j < |ks|
      ensures ks[i].key != ks[j].key
    {
      assert ks[i] == NormalItem(x[i]) && ks[j] == NormalItem(x[j]);
    }
  }

  /** Clean values print alike exactly when they are the same value. */
  lemma {:induction false} NormalIffSame(a: Json, b: Json)
    requires Clean(a) && Clean(b)
    ensures Normal(a) == Normal(b) <==> SameValue(a, b)
    decreases a
  {
    match (a, b)
    case (JStr(s), JStr(t)) =>
      if Utf16(s) == Utf16(t) {
        Utf16Injective(s, t);
      }
    case (JList(x), JList(y)) =>
      ElemsIffSame(x, y);
    case (JDict(x), JDict(y)) =>
      DictNormalEqual(x, y);
      forall i, j | 0 <= i < |x| && 0 <= j < |y|
        ensures NormalItem(x[i]) == NormalItem(y[j]) <==> SameItem(x[i], y[j])
      {
        NormalIffSame(x[i].value, y[j].value);
      }
      DictIffSame(x, y);
    case _ =>
  }

  lemma DictIffSame(x: seq<JItem>, y: seq<JItem>)
    requires forall i, j :: 0 <= i < |x| && 0 <= j < |y| ==>
               (NormalItem(x[i]) == NormalItem(y[j]) <==> SameItem(x[i], y[j]))
    ensures SameItems(x, y) <==> forall k :: k in NormalItems(x) <==> k in NormalItems(y)
  {
    hide Normal, SameItem, SameItems, NormalItems;
    MembersIffSame(x, y, NormalItems(x), NormalItems(y));
  }

  lemma MembersIffSame(x: seq<JItem>, y: seq<JItem>, a: seq<Keyed>, b: seq<Keyed>)
    requires |a| == |x| && |b| == |y|
    requires forall i, j :: 0 <= i < |a| && 0 <= j < |b| ==> (a[i] == b[j] <==> SameItem(x[i], y[j]))
    ensures SameItems(x, y) <==> forall k :: k in a <==> k in b
  {
    hide SameItem, SameItems;
    if SameItems(x, y) {
      SameMembers(x, y, a, b);
    }
    if forall k :: k in a <==> k in b {
      MembersSame(x, y, a, b);
    }
  }

  lemma SameMembers(x: seq<JItem>, y: seq<JItem>, a: seq<Keyed>, b: seq<Keyed>)
    requires |a| == |x| && |b| == |y| && SameItems(x, y)
    requires forall i, j :: 0 <= i < |a| && 0 <= j < |b| ==> (a[i] == b[j] <==> SameItem(x[i], y[j]))
    ensures forall k :: k in a <==> k in b
  {
    hide SameItem;
    forall i | 0 <= i < |a|
      ensures a[i] in b
    {
      assert LikeSome(x[i], y);
      var j :| 0 <= j < |y| && SameItem(x[i], y[j]);
      assert a[i] == b[j];
    }
    forall j | 0 <= j < |b|
      ensures b[j] in a
    {
      assert SomeLike(x, y[j]);
      var i :| 0 <= i < |x| && SameItem(x[i], y[j]);
      assert a[i] == b[j];
    }
  }

  lemma MembersSame(x: seq<JItem>, y: seq<JItem>, a: seq<Keyed>, b: seq<Keyed>)
    requires |a| == |x| && |b| == |y| && forall k :: k in a <==> k in b
    requires forall i, j :: 0 <= i < |a| && 0 <= j < |b| ==> (a[i] == b[j] <==> SameItem(x[i], y[j]))
    ensures SameItems(x, y)
  {
    hide SameItem;
    forall i | 0 <= i < |x|
      ensures LikeSome(x[i], y)
    {
      assert a[i] in b;
      var j :| 0 <= j < |b| && b[j] == a[i];
    }
    forall j | 0 <= j < |y|
      ensures SomeLike(x, y[j])
    {
      assert b[j] in a;
      var i :| 0 <= i < |a| && a[i] == b[j];
    }
  }

  lemma {:induction false} ElemsIffSame(x: seq<Json>, y: seq<Json>)
    requires Clean(JList(x)) && Clean(JList(y))
    ensures Normal(JList(x)) == Normal(JList(y)) <==> SameValue(JList(x), JList(y))
    decreases x
  {
    forall i | 0 <= i < |x| && |x| == |y|
      ensures Normal(x[i]) == Normal(y[i]) <==> SameValue(x[i], y[i])
    {
      NormalIffSame(x[i], y[i]);
    }
    if Normal(JList(x)) == Normal(JList(y)) {
      assert |x| == |NormalElems(x)| == |NormalElems(y)| == |y|;
      forall i | 0 <= i < |x|
        ensures SameValue(x[i], y[i])
      {
        assert NormalElems(x)[i] == NormalElems(y)[i];
      }
    }
    if SameValue(JList(x), JList(y)) {
      assert NormalElems(x) == NormalElems(y);
    }
  }

  /** Values without surrogate pairs have the same text exactly when they are the same value. */
  lemma DumpsIffSame(a: Json, b: Json)
    requires Clean(a) && Clean(b)
    ensures Dumps(a) == Dumps(b) <==> SameValue(a, b)
  {
    PrintInjective(Normal(a), Normal(b));
    NormalIffSame(a, b);
  }
}
