/**
 * What a caller can see of a payload before it is fingerprinted: distinct keys, as every
 * Python dictionary has, and text without surrogate pairs. Canonicalisation keeps both.
 */
module Payloads {
  import opened Wrappers
  import opened PyText
  import opened CanonicalJson
  import opened PrintedAlike

  /** No dictionary at any depth has a text key twice. */
  ghost predicate KeysOnce(v: PyValue) {
    match v
    case PDict(items) =>
      && (forall i, k :: 0 <= i < k < |items| && items[i].key.KStr? ==> items[i].key != items[k].key)
      && forall i :: 0 <= i < |items| ==> KeysOnce(items[i].value)
    case PList(elems) => forall i :: 0 <= i < |elems| ==> KeysOnce(elems[i])
    case PTuple(elems) => forall i :: 0 <= i < |elems| ==> KeysOnce(elems[i])
    case PArray(listed) => KeysOnce(listed)
    case _ => true
  }

  /** No text at any depth, keys included, holds a surrogate pair. */
  ghost predicate NoPairs(v: PyValue) {
    match v
    case PStr(text) => PairFree(text)
    case PDict(items) =>
      forall i :: 0 <= i < |items| ==> (items[i].key.KStr? ==> PairFree(items[i].key.text)) && NoPairs(items[i].value)
    case PList(elems) => forall i :: 0 <= i < |elems| ==> NoPairs(elems[i])
    case PTuple(elems) => forall i :: 0 <= i < |elems| ==> NoPairs(elems[i])
    case PArray(listed) => NoPairs(listed)
    case _ => true
  }

  /** j carries over what v has of the two. */
  ghost predicate Keeps(v: PyValue, j: Json) {
    (KeysOnce(v) ==> WellKeyed(j)) && (KeysOnce(v) && NoPairs(v) ==> Clean(j))
  }

  ghost predicate ItemsKept(items: seq<PyItem>, out: seq<JItem>) {
    && |out| == |items|
    && forall i :: 0 <= i < |items| ==> items[i].key == KStr(out[i].key) && Keeps(items[i].value, out[i].value)
  }

  /** The canonical form has distinct keys if the value has, and no surrogate pairs if the value has none. */
  lemma {:induction false} CanonicalKeeps(v: PyValue, path: Text)
    requires Canonical(v, path).Ok?
    ensures Keeps(v, Canonical(v, path).value)
    decreases v, 0
  {
    match v
    case PDict(items) =>
      ItemsKeep(items, path);
      DictKeeps(items, CanonicalItems(items, path).value);
    case PList(elems) => ElemsKeep(elems, path, 0);
    case PTuple(elems) => ElemsKeep(elems, path, 0);
    case PArray(listed) => CanonicalKeeps(listed, path);
    case _ =>
  }

  lemma {:induction false} ItemsKeep(items: seq<PyItem>, path: Text)
    requires CanonicalItems(items, path).Ok?
    ensures ItemsKept(items, CanonicalItems(items, path).value)
    decreases items, 0
  {
    hide Keeps;
    if items != [] {
      ItemKeeps(items[0], path);
      ItemsKeep(items[1..], path);
      assert forall i :: 1 <= i < |items| ==> items[i] == items[1..][i - 1];
    }
  }

  lemma {:induction false} ItemKeeps(item: PyItem, path: Text)
    requires CanonicalItem(item, path).Ok?
    ensures item.key == KStr(CanonicalItem(item, path).value.key)
    ensures Keeps(item.value, CanonicalItem(item, path).value.value)
    decreases item, 1
  {
    CanonicalKeeps(item.value, path + Chars(".") + item.key.text);
  }

  lemma {:induction false} ElemsKeep(elems: seq<PyValue>, path: Text, i: nat)
    requires CanonicalElems(elems, path, i).Ok?
    ensures var out := CanonicalElems(elems, path, i).value;
            |out| == |elems| && forall k :: 0 <= k < |elems| ==> Keeps(elems[k], out[k])
    decreases elems, 0
  {
    hide Keeps;
    if elems != [] {
      CanonicalKeeps(elems[0], path + Chars("[") + Chars(Decimal(i)) + Chars("]"));
      ElemsKeep(elems[1..], path, i + 1);
      assert forall k :: 1 <= k < |elems| ==> elems[k] == elems[1..][k - 1];
    }
  }

  lemma DictKeeps(items: seq<PyItem>, out: seq<JItem>)
    requires ItemsKept(items, out)
    ensures Keeps(PDict(items), JDict(out))
  {
    if KeysOnce(PDict(items)) {
      forall i, k | 0 <= i < k < |out|
        ensures out[i].key != out[k].key
      {
        assert items[i].key != items[k].key;
      }
    }
  }

  // ---------------------------------------------------------------- the same input

  /**
   * The same payload value: lists and tuples alike, arrays as what they list, dictionaries
   * as mappings whatever their order.
   */
  ghost predicate SameInput(v: PyValue, w: PyValue)
    decreases v, w
  {
    match (v, w)
    case (PArray(listed), _) => SameInput(listed, w)
    case (_, PArray(listed)) => SameInput(v, listed)
    case (PDict(x), PDict(y)) => SameEntries(x, y)
    case (PList(x), PList(y)) => |x| == |y| && forall i :: 0 <= i < |x| ==> SameInput(x[i], y[i])
    case (PList(x), PTuple(y)) => |x| == |y| && forall i :: 0 <= i < |x| ==> SameInput(x[i], y[i])
    case (PTuple(x), PList(y)) => |x| == |y| && forall i :: 0 <= i < |x| ==> SameInput(x[i], y[i])
    case (PTuple(x), PTuple(y)) => |x| == |y| && forall i :: 0 <= i < |x| ==> SameInput(x[i], y[i])
    case _ => v == w
  }

  /** Each item of either dictionary has its like in the other. */
  ghost predicate SameEntries(x: seq<PyItem>, y: seq<PyItem>)
    decreases x, y
  {
    && (forall i {:trigger HasLike(x[i], y)} :: 0 <= i < |x| ==> HasLike(x[i], y))
    && (forall j {:trigger IsLike(x, y[j])} :: 0 <= j < |y| ==> IsLike(x, y[j]))
  }

  ghost predicate HasLike(p: PyItem, y: seq<PyItem>)
    decreases p, y
  {
    exists j :: 0 <= j < |y| && SameEntry(p, y[j])
  }

  ghost predicate IsLike(x: seq<PyItem>, q: PyItem)
    decreases x, q
  {
    exists i :: 0 <= i < |x| && SameEntry(x[i], q)
  }

  ghost predicate SameEntry(p: PyItem, q: PyItem)
    decreases p, q
  {
    p.key == q.key && SameInput(p.value, q.value)
  }

  predicate IsListLike(v: PyValue) {
    v.PList? || v.PTuple?
  }

  lemma RepresentsList(v: PyValue, a: Json)
    requires IsListLike(v) && Represents(v, a)
    ensures a.JList? && |a.elems| == |v.elems| && forall i :: 0 <= i < |v.elems| ==> Represents(v.elems[i], a.elems[i])
  {
  }

  lemma SameInputLists(v: PyValue, w: PyValue)
    requires IsListLike(v) && IsListLike(w)
    ensures SameInput(v, w) <==>
            |v.elems| == |w.elems| && forall i :: 0 <= i < |v.elems| ==> SameInput(v.elems[i], w.elems[i])
  {
  }

  lemma SameValueLists(a: Json, b: Json)
    requires a.JList? && b.JList?
    ensures SameValue(a, b) <==>
            |a.elems| == |b.elems| && forall i :: 0 <= i < |a.elems| ==> SameValue(a.elems[i], b.elems[i])
  {
  }

  lemma DictsUnfold(v: PyValue, w: PyValue, a: Json, b: Json)
    requires v.PDict? && w.PDict? && Represents(v, a) && Represents(w, b)
    ensures a.JDict? && |a.items| == |v.items|
    ensures forall i :: 0 <= i < |v.items| ==> RepresentsItem(v.items[i], a.items[i])
    ensures b.JDict? && |b.items| == |w.items|
    ensures forall i :: 0 <= i < |w.items| ==> RepresentsItem(w.items[i], b.items[i])
    ensures SameInput(v, w) <==> SameEntries(v.items, w.items)
    ensures SameValue(a, b) <==> SameItems(a.items, b.items)
  {
    hide SameEntries, SameItems;
  }

  /** Values of different shape differ in both senses, scalars in both or in neither. */
  lemma ScalarsSame(v: PyValue, w: PyValue, a: Json, b: Json)
    requires Represents(v, a) && Represents(w, b) && !v.PArray? && !w.PArray?
    requires !(v.PDict? && w.PDict?) && !(IsListLike(v) && IsListLike(w))
    ensures SameInput(v, w) <==> SameValue(a, b)
  {
    hide SameEntries, SameItems;
  }

  lemma ArrayUnfolds(v: PyValue, w: PyValue)
    ensures v.PArray? ==> SameInput(v, w) == SameInput(v.listed, w)
    ensures !v.PArray? && w.PArray? ==> SameInput(v, w) == SameInput(v, w.listed)
  {
  }

  /** Canonical forms are the same value exactly when what they represent is the same input. */
  lemma {:induction false} RepresentedSame(v: PyValue, w: PyValue, a: Json, b: Json)
    requires Represents(v, a) && Represents(w, b)
    ensures SameInput(v, w) <==> SameValue(a, b)
    decreases v, w
  {
    if v.PArray? || w.PArray? {
      ArrayUnfolds(v, w);
      assert v.PArray? ==> Represents(v.listed, a);
      assert w.PArray? ==> Represents(w.listed, b);
      hide SameInput, SameValue, Represents;
      if v.PArray? {
        RepresentedSame(v.listed, w, a, b);
      } else {
        RepresentedSame(v, w.listed, a, b);
      }
    } else {
      hide SameInput, SameValue, Represents;
      if v.PDict? && w.PDict? {
        DictsUnfold(v, w, a, b);
        EntriesSame(v.items, w.items, a.items, b.items);
      } else if IsListLike(v) && IsListLike(w) {
        RepresentsList(v, a);
        RepresentsList(w, b);
        SameInputLists(v, w);
        SameValueLists(a, b);
        ElemsSame(v.elems, w.elems, a.elems, b.elems);
      } else {
        ScalarsSame(v, w, a, b);
      }
    }
  }

  lemma {:induction false} ElemsSame(x: seq<PyValue>, y: seq<PyValue>, a: seq<Json>, b: seq<Json>)
    requires |x| == |a| && |y| == |b|
    requires forall i :: 0 <= i < |x| ==> Represents(x[i], a[i])
    requires forall i :: 0 <= i < |y| ==> Represents(y[i], b[i])
    ensures (|x| == |y| && forall i :: 0 <= i < |x| ==> SameInput(x[i], y[i])) <==>
            (|a| == |b| && forall i :: 0 <= i < |a| ==> SameValue(a[i], b[i]))
    decreases x, y
  {
    hide SameInput, SameValue, Represents;
    if |x| == |y| {
      forall i | 0 <= i < |x|
        ensures SameInput(x[i], y[i]) <==> SameValue(a[i], b[i])
      {
        RepresentedSame(x[i], y[i], a[i], b[i]);
      }
    }
  }

  lemma {:induction false} EntriesSame(x: seq<PyItem>, y: seq<PyItem>, a: seq<JItem>, b: seq<JItem>)
    requires |x| == |a| && |y| == |b|
    requires forall i :: 0 <= i < |x| ==> RepresentsItem(x[i], a[i])
    requires forall i :: 0 <= i < |y| ==> RepresentsItem(y[i], b[i])
    ensures SameEntries(x, y) <==> SameItems(a, b)
    decreases x, y
  {
    hide SameInput, SameValue, Represents, SameEntry, SameItem, RepresentsItem;
    forall i, j | 0 <= i < |x| && 0 <= j < |y|
      ensures SameEntry(x[i], y[j]) <==> SameItem(a[i], b[j])
    {
      EntrySame(x[i], y[j], a[i], b[j]);
    }
    EntriesMatch(x, y, a, b);
  }

  lemma {:induction false} EntrySame(p: PyItem, q: PyItem, a: JItem, b: JItem)
    requires RepresentsItem(p, a) && RepresentsItem(q, b)
    ensures SameEntry(p, q) <==> SameItem(a, b)
    decreases p, q
  {
    hide SameInput, SameValue, Represents;
    RepresentedSame(p.value, q.value, a.value, b.value);
  }

  lemma HasLikeIff(p: PyItem, y: seq<PyItem>, a: JItem, b: seq<JItem>)
    requires |y| == |b| && forall j :: 0 <= j < |y| ==> (SameEntry(p, y[j]) <==> SameItem(a, b[j]))
    ensures HasLike(p, y) <==> LikeSome(a, b)
  {
    hide SameEntry, SameItem;
  }

  lemma IsLikeIff(x: seq<PyItem>, q: PyItem, a: seq<JItem>, b: JItem)
    requires |x| == |a| && forall i :: 0 <= i < |x| ==> (SameEntry(x[i], q) <==> SameItem(a[i], b))
    ensures IsLike(x, q) <==> SomeLike(a, b)
  {
    hide SameEntry, SameItem;
  }

  /** Likeness item by item carries over to the dictionaries. */
  lemma EntriesMatch(x: seq<PyItem>, y: seq<PyItem>, a: seq<JItem>, b: seq<JItem>)
    requires |x| == |a| && |y| == |b|
    requires forall i, j :: 0 <= i < |x| && 0 <= j < |y| ==> (SameEntry(x[i], y[j]) <==> SameItem(a[i], b[j]))
    ensures SameEntries(x, y) <==> SameItems(a, b)
  {
    hide SameEntry, SameItem, HasLike, LikeSome, IsLike, SomeLike;
    forall i | 0 <= i < |x|
      ensures HasLike(x[i], y) <==> LikeSome(a[i], b)
    {
      HasLikeIff(x[i], y, a[i], b);
    }
    forall j | 0 <= j < |y|
      ensures IsLike(x, y[j]) <==> SomeLike(a, b[j])
    {
      IsLikeIff(x, y[j], a, b[j]);
    }
  }
}
