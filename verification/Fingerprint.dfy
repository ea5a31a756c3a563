/**
 * The model-content fingerprint of model_fingerprint.py: total classification of the
 * top-level keys, canonical JSON, one hash. SHA-256 is a parameter of every operation.
 */
module Fingerprint {
  import opened Wrappers
  import opened PyText
  import opened CanonicalJson
  import opened PrintedAlike
  import opened Payloads

  const SCHEMA_VERSION := 1

  /** The classification tables: keys that are hashed, and keys known not to matter. */
  datatype Tables = Tables(predictive: set<Text>, operational: set<Text>) {
    predicate Predictive(k: PyKey) {
      k.KStr? && k.text in predictive
    }

    predicate Classified(k: PyKey) {
      k.KStr? && (k.text in predictive || k.text in operational)
    }
  }

  datatype FingerprintError =
    | NotADict
    | UnclassifiedKeys(keys: seq<PyKey>)
    | NoPredictiveContent
    | NotCanonical(cause: CanonicalError)
    | VersionGap(stamped: PyValue)
    | Mismatch(expected: string, actual: string, digests: map<Text, string>)

  // ---------------------------------------------------------------- the operations

  function Unclassified(items: seq<PyItem>, tables: Tables): (keys: seq<PyKey>)
    ensures keys == [] <==> forall i :: 0 <= i < |items| ==> tables.Classified(items[i].key)
  {
    if items == [] then []
    else
      var rest := Unclassified(items[1..], tables);
      assert forall i :: 1 <= i < |items| ==> items[i] == items[1..][i - 1];
      if tables.Classified(items[0].key) then rest else [items[0].key] + rest
  }

  function PredictiveItems(items: seq<PyItem>, tables: Tables): (r: seq<PyItem>)
    ensures forall i :: 0 <= i < |r| ==> tables.Predictive(r[i].key)
  {
    if items == [] then []
    else if tables.Predictive(items[0].key) then [items[0]] + PredictiveItems(items[1..], tables)
    else PredictiveItems(items[1..], tables)
  }

  /** `_classified_predictive_content`. */
  function ClassifiedContent(payload: PyValue, tables: Tables): (r: Result<seq<PyItem>, FingerprintError>)
    ensures r.Ok? ==> forall i :: 0 <= i < |r.value| ==> tables.Predictive(r.value[i].key)
  {
    match payload
    case PDict(items) =>
      var unclassified := Unclassified(items, tables);
      if unclassified != [] then Err(UnclassifiedKeys(unclassified))
      else
        var content := PredictiveItems(items, tables);
        if content == [] then Err(NoPredictiveContent) else Ok(content)
    case _ => Err(NotADict)
  }

  /** `{k: _canonical(v, k) for k, v in content.items()}`. */
  function CanonicalContent(content: seq<PyItem>): (r: Result<seq<JItem>, FingerprintError>)
    requires forall i :: 0 <= i < |content| ==> content[i].key.KStr?
  {
    if content == [] then Ok([])
    else
      match Canonical(content[0].value, content[0].key.text)
      case Err(cause) => Err(NotCanonical(cause))
      case Ok(value) =>
        var rest :- CanonicalContent(content[1..]);
        Ok([JItem(content[0].key.text, value)] + rest)
  }

  /** The canonical predictive map of a payload, or why it cannot be fingerprinted. */
  function Content(payload: PyValue, tables: Tables): (r: Result<seq<JItem>, FingerprintError>) {
    var content :- ClassifiedContent(payload, tables);
    CanonicalContent(content)
  }

  /** `_digest`. */
  function Digest(j: Json, sha: string -> string): (r: string)
    ensures |r| == 7 + |sha(Dumps(j))| && r[..7] == "sha256:" && r[7..] == sha(Dumps(j))
  {
    "sha256:" + sha(Dumps(j))
  }

  /** `model_content_sha256`. */
  function ContentHash(payload: PyValue, tables: Tables, sha: string -> string): (r: Result<string, FingerprintError>) {
    var content :- Content(payload, tables);
    Ok(Digest(JDict(content), sha))
  }

  /** `{k: _digest(...) for k, v in content.items()}`. */
  function DigestMap(content: seq<JItem>, sha: string -> string): map<Text, string> {
    if content == [] then map[]
    else
      var last := content[|content| - 1];
      DigestMap(content[..|content| - 1], sha)[last.key := Digest(last.value, sha)]
  }

  /** `predictive_field_digests`. */
  function FieldDigests(payload: PyValue, tables: Tables, sha: string -> string)
    : (r: Result<map<Text, string>, FingerprintError>)
  {
    var content :- Content(payload, tables);
    Ok(DigestMap(content, sha))
  }

  const FINGERPRINT_KEY := "model_content_fingerprint"
  const VERSION_KEY := "fingerprint_schema_version"

  /** `stamp`: the fields to persist beside the payload. */
  function Stamp(payload: PyValue, tables: Tables, sha: string -> string): (r: Result<seq<PyItem>, FingerprintError>)
    ensures r.Ok? <==> ContentHash(payload, tables, sha).Ok?
    ensures r.Ok? ==> r.value == [
              PyItem(KStr(Chars("model_content_fingerprint")), PStr(Chars(ContentHash(payload, tables, sha).value))),
              PyItem(KStr(Chars("fingerprint_schema_version")), PInt(1))]
  {
    var hash :- ContentHash(payload, tables, sha);
    Ok([PyItem(KStr(Chars(FINGERPRINT_KEY)), PStr(Chars(hash))),
        PyItem(KStr(Chars(VERSION_KEY)), PInt(SCHEMA_VERSION))])
  }

  /** `verify`. */
  function Verify(payload: PyValue, expected: string, version: PyValue, tables: Tables, sha: string -> string)
    : (r: Result<(), FingerprintError>)
  {
    if version != PInt(SCHEMA_VERSION) then Err(VersionGap(version))
    else
      var actual :- ContentHash(payload, tables, sha);
      if actual == expected then Ok(())
      else
        var digests :- FieldDigests(payload, tables, sha);
        Err(Mismatch(expected, actual, digests))
  }

  // ---------------------------------------------------------------- equal hashes, equal content

  ghost predicate Injective(sha: string -> string) {
    forall s, t :: sha(s) == sha(t) ==> s == t
  }

  lemma DigestsEqual(a: Json, b: Json, sha: string -> string)
    requires Injective(sha)
    ensures Digest(a, sha) == Digest(b, sha) <==> Dumps(a) == Dumps(b)
  {
    var p := "sha256:";
    var x, y := sha(Dumps(a)), sha(Dumps(b));
    if p + x == p + y {
      assert x == (p + x)[|p|..] == (p + y)[|p|..] == y;
    }
  }

  function Lookup(items: seq<JItem>, k: Text): Option<Json> {
    if items == [] then None
    else if items[|items| - 1].key == k then Some(items[|items| - 1].value)
    else Lookup(items[..|items| - 1], k)
  }

  ghost predicate DistinctKeys(items: seq<JItem>) {
    forall i, j :: 0 <= i < j < |items| ==> items[i].key != items[j].key
  }

  lemma {:induction false} LookupFinds(items: seq<JItem>, k: Text)
    ensures Lookup(items, k).None? ==> forall i :: 0 <= i < |items| ==> items[i].key != k
    ensures Lookup(items, k).Some? ==> exists i :: 0 <= i < |items| && items[i] == JItem(k, Lookup(items, k).value)
  {
    if items != [] {
      var init, last := items[..|items| - 1], items[|items| - 1];
      if last.key == k {
        assert items[|items| - 1] == JItem(k, last.value);
      } else {
        LookupFinds(init, k);
        if Lookup(init, k).Some? {
          var i :| 0 <= i < |init| && init[i] == JItem(k, Lookup(init, k).value);
          assert items[i] == init[i];
        }
      }
    }
  }

  lemma LookupAt(items: seq<JItem>, i: nat)
    requires DistinctKeys(items) && i < |items|
    ensures Lookup(items, items[i].key) == Some(items[i].value)
  {
    LookupFinds(items, items[i].key);
    assert items[i].key == items[i].key;
  }

  /** Same presence and same value at key k. */
  ghost predicate AgreeAt(x: seq<JItem>, y: seq<JItem>, k: Text) {
    match (Lookup(x, k), Lookup(y, k))
    case (Some(a), Some(b)) => SameValue(a, b)
    case (None, None) => true
    case _ => false
  }

  /** Dictionaries are the same value exactly when they agree at every key. */
  lemma SameItemsByKey(x: seq<JItem>, y: seq<JItem>)
    requires DistinctKeys(x) && DistinctKeys(y)
    ensures SameItems(x, y) <==> forall k :: AgreeAt(x, y, k)
  {
    hide SameValue;
    if SameItems(x, y) {
      forall k
        ensures AgreeAt(x, y, k)
      {
        SameItemsAgree(x, y, k);
      }
    }
    if forall k :: AgreeAt(x, y, k) {
      AgreeingItemsSame(x, y);
    }
  }

  lemma SameItemsAgree(x: seq<JItem>, y: seq<JItem>, k: Text)
    requires DistinctKeys(x) && DistinctKeys(y) && SameItems(x, y)
    ensures AgreeAt(x, y, k)
  {
    hide SameValue, Lookup;
    if Lookup(x, k).Some? {
      LookupFinds(x, k);
      var i :| 0 <= i < |x| && x[i] == JItem(k, Lookup(x, k).value);
      assert LikeSome(x[i], y);
      var j :| 0 <= j < |y| && SameItem(x[i], y[j]);
      LookupAt(y, j);
    }
    if Lookup(y, k).Some? {
      PresentInBoth(x, y, k);
    }
  }

  lemma PresentInBoth(x: seq<JItem>, y: seq<JItem>, k: Text)
    requires DistinctKeys(x) && SameItems(x, y) && Lookup(y, k).Some?
    ensures Lookup(x, k).Some?
  {
    hide SameValue, Lookup;
    LookupFinds(y, k);
    var j :| 0 <= j < |y| && y[j] == JItem(k, Lookup(y, k).value);
    assert SomeLike(x, y[j]);
    var i :| 0 <= i < |x| && SameItem(x[i], y[j]);
    LookupAt(x, i);
  }

  lemma AgreeingItemsSame(x: seq<JItem>, y: seq<JItem>)
    requires DistinctKeys(x) && DistinctKeys(y) && forall k :: AgreeAt(x, y, k)
    ensures SameItems(x, y)
  {
    hide SameValue, Lookup;
    forall i | 0 <= i < |x|
      ensures LikeSome(x[i], y)
    {
      var k := x[i].key;
      LookupAt(x, i);
      assert AgreeAt(x, y, k);
      LookupFinds(y, k);
      var j :| 0 <= j < |y| && y[j] == JItem(k, Lookup(y, k).value);
      assert SameItem(x[i], y[j]);
    }
    forall j | 0 <= j < |y|
      ensures SomeLike(x, y[j])
    {
      var k := y[j].key;
      LookupAt(y, j);
      assert AgreeAt(x, y, k);
      LookupFinds(x, k);
      var i :| 0 <= i < |x| && x[i] == JItem(k, Lookup(x, k).value);
      assert SameItem(x[i], y[j]);
    }
  }

  // ---------------------------------------------------------------- what the payload promises

  /** No text of the predictive part holds a surrogate pair; what is not hashed may. */
  ghost predicate PredictiveNoPairs(payload: PyValue, tables: Tables) {
    payload.PDict? ==> forall i :: 0 <= i < |payload.items| && tables.Predictive(payload.items[i].key) ==>
      PairFree(payload.items[i].key.text) && NoPairs(payload.items[i].value)
  }

  lemma {:induction false} PredictiveFrom(items: seq<PyItem>, tables: Tables, item: PyItem)
    ensures item in PredictiveItems(items, tables) <==> item in items && tables.Predictive(item.key)
  {
    if items != [] {
      PredictiveFrom(items[1..], tables, item);
      assert item in items <==> item == items[0] || item in items[1..];
    }
  }

  /** The predictive items keep their keys distinct. */
  lemma {:induction false} PredictiveOnce(items: seq<PyItem>, tables: Tables)
    requires KeysOnce(PDict(items))
    ensures KeysOnce(PDict(PredictiveItems(items, tables)))
  {
    if items != [] {
      var rest := PredictiveItems(items[1..], tables);
      assert forall i :: 0 <= i < |items[1..]| ==> items[1..][i] == items[i + 1];
      PredictiveOnce(items[1..], tables);
      forall i | 0 <= i < |rest|
        ensures items[0].key.KStr? ==> items[0].key != rest[i].key
      {
        PredictiveFrom(items[1..], tables, rest[i]);
        var k :| 0 <= k < |items[1..]| && items[1..][k] == rest[i];
      }
    }
  }

  lemma {:induction false} CanonicalContentKeeps(content: seq<PyItem>)
    requires forall i :: 0 <= i < |content| ==> content[i].key.KStr?
    requires CanonicalContent(content).Ok?
    ensures ItemsKept(content, CanonicalContent(content).value)
  {
    hide Keeps;
    if content != [] {
      CanonicalKeeps(content[0].value, content[0].key.text);
      CanonicalContentKeeps(content[1..]);
      assert forall i :: 1 <= i < |content| ==> content[i] == content[1..][i - 1];
    }
  }

  /** So the content of a Python payload has distinct keys, and no surrogate pairs if its predictive part has none. */
  lemma ContentKeeps(payload: PyValue, tables: Tables)
    requires KeysOnce(payload) && Content(payload, tables).Ok?
    ensures WellKeyed(JDict(Content(payload, tables).value))
    ensures PredictiveNoPairs(payload, tables) ==> Clean(JDict(Content(payload, tables).value))
  {
    var items := payload.items;
    var content := PredictiveItems(items, tables);
    PredictiveOnce(items, tables);
    CanonicalContentKeeps(content);
    DictKeeps(content, CanonicalContent(content).value);
    if PredictiveNoPairs(payload, tables) {
      forall i | 0 <= i < |content|
        ensures PairFree(content[i].key.text) && NoPairs(content[i].value)
      {
        PredictiveFrom(items, tables, content[i]);
        var k :| 0 <= k < |items| && items[k] == content[i];
      }
    }
  }

  // ---------------------------------------------------------------- the laws

  /**
   * Under an injective hash, two accepted payloads have equal fingerprints exactly when
   * their canonical predictive maps are alike: equal but for surrogate pairs and the
   * characters they spell.
   */
  lemma HashIffAlike(p: PyValue, q: PyValue, tables: Tables, sha: string -> string)
    requires Injective(sha) && Content(p, tables).Ok? && Content(q, tables).Ok?
    requires KeysOnce(p) && KeysOnce(q)
    ensures ContentHash(p, tables, sha) == ContentHash(q, tables, sha) <==>
            Alike(JDict(Content(p, tables).value), JDict(Content(q, tables).value))
  {
    var x, y := Content(p, tables).value, Content(q, tables).value;
    hide WellKeyed, KeysOnce, Digest, Dumps, Content, Alike;
    ContentKeeps(p, tables);
    ContentKeeps(q, tables);
    DigestsEqual(JDict(x), JDict(y), sha);
    DumpsIffAlike(JDict(x), JDict(y));
  }

  /** Without surrogate pairs: exactly when the maps agree at every key. */
  lemma HashIffSameContent(p: PyValue, q: PyValue, tables: Tables, sha: string -> string)
    requires Injective(sha) && Content(p, tables).Ok? && Content(q, tables).Ok?
    requires KeysOnce(p) && KeysOnce(q) && PredictiveNoPairs(p, tables) && PredictiveNoPairs(q, tables)
    ensures ContentHash(p, tables, sha) == ContentHash(q, tables, sha) <==>
            forall k :: AgreeAt(Content(p, tables).value, Content(q, tables).value, k)
  {
    var x, y := Content(p, tables).value, Content(q, tables).value;
    hide Clean, WellKeyed, KeysOnce, PredictiveNoPairs, Alike, Content, SameItems, AgreeAt;
    ContentKeeps(p, tables);
    ContentKeeps(q, tables);
    HashIffAlike(p, q, tables, sha);
    AlikeIffSame(JDict(x), JDict(y));
    CleanDistinct(x);
    CleanDistinct(y);
    SameItemsByKey(x, y);
  }

  /** The content holds exactly the predictive keys of the payload, each with its canonical value. */
  lemma {:induction false} ContentIsPredictivePart(items: seq<PyItem>, tables: Tables, k: Text)
    requires CanonicalContent(PredictiveItems(items, tables)).Ok?
    ensures var content := CanonicalContent(PredictiveItems(items, tables)).value;
            && (Lookup(content, k).Some? <==>
                  k in tables.predictive && exists i :: 0 <= i < |items| && items[i].key == KStr(k))
            && (Lookup(content, k).Some? ==>
                  exists i :: 0 <= i < |items| && items[i].key == KStr(k)
                    && Canonical(items[i].value, k) == Ok(Lookup(content, k).value))
  {
    if items != [] {
      var content := CanonicalContent(PredictiveItems(items, tables)).value;
      ContentTail(items, tables);
      ContentIsPredictivePart(items[1..], tables, k);
      var rest := CanonicalContent(PredictiveItems(items[1..], tables)).value;
      assert forall i :: 1 <= i < |items| ==> items[i] == items[1..][i - 1];
      if content != rest {
        LookupPrepend(content[0], rest, k);
      }
      if Lookup(rest, k).Some? {
        var i :| 0 <= i < |items[1..]| && items[1..][i].key == KStr(k)
                   && Canonical(items[1..][i].value, k) == Ok(Lookup(rest, k).value);
        assert items[i + 1] == items[1..][i];
      }
    }
  }

  lemma ContentTail(items: seq<PyItem>, tables: Tables)
    requires items != [] && CanonicalContent(PredictiveItems(items, tables)).Ok?
    ensures CanonicalContent(PredictiveItems(items[1..], tables)).Ok?
    ensures var content, rest := CanonicalContent(PredictiveItems(items, tables)).value,
                                 CanonicalContent(PredictiveItems(items[1..], tables)).value;
            if tables.Predictive(items[0].key) then
              && content == [content[0]] + rest && content[0].key == items[0].key.text
              && Canonical(items[0].value, items[0].key.text) == Ok(content[0].value)
            else content == rest
  {
    if tables.Predictive(items[0].key) {
      var tail := PredictiveItems(items[1..], tables);
      assert ([items[0]] + tail)[1..] == tail;
    }
  }

  lemma {:induction false} LookupPrepend(x: JItem, rest: seq<JItem>, k: Text)
    ensures Lookup([x] + rest, k) ==
            if Lookup(rest, k).Some? then Lookup(rest, k) else if x.key == k then Some(x.value) else None
  {
    var all := [x] + rest;
    if rest == [] {
      assert all[..0] == [];
    } else {
      assert all[..|all| - 1] == [x] + rest[..|rest| - 1];
      LookupPrepend(x, rest[..|rest| - 1], k);
    }
  }

  lemma CleanDistinct(x: seq<JItem>)
    requires Clean(JDict(x))
    ensures DistinctKeys(x)
  {
  }

  lemma {:induction false} DigestMapAt(content: seq<JItem>, sha: string -> string, k: Text)
    ensures k in DigestMap(content, sha) <==> Lookup(content, k).Some?
    ensures k in DigestMap(content, sha) ==> DigestMap(content, sha)[k] == Digest(Lookup(content, k).value, sha)
  {
    if content != [] {
      DigestMapAt(content[..|content| - 1], sha, k);
    }
  }

  /** Same presence and alike values at key k. */
  ghost predicate AlikeAt(x: seq<JItem>, y: seq<JItem>, k: Text) {
    match (Lookup(x, k), Lookup(y, k))
    case (Some(v), Some(w)) => Alike(v, w)
    case (None, None) => true
    case _ => false
  }

  /** Per-field digests differ exactly at the fields that are not alike. */
  lemma FieldDigestsIffAlike(p: PyValue, q: PyValue, tables: Tables, sha: string -> string, k: Text)
    requires Injective(sha) && Content(p, tables).Ok? && Content(q, tables).Ok?
    requires KeysOnce(p) && KeysOnce(q)
    ensures FieldDigests(p, tables, sha).Ok? && FieldDigests(q, tables, sha).Ok?
    ensures var dp, dq := FieldDigests(p, tables, sha).value, FieldDigests(q, tables, sha).value;
            AlikeAt(Content(p, tables).value, Content(q, tables).value, k) <==>
              (k in dp <==> k in dq) && (k in dp ==> dp[k] == dq[k])
  {
    var x, y := Content(p, tables).value, Content(q, tables).value;
    assert FieldDigests(p, tables, sha) == Ok(DigestMap(x, sha));
    assert FieldDigests(q, tables, sha) == Ok(DigestMap(y, sha));
    DigestMapAt(x, sha, k);
    DigestMapAt(y, sha, k);
    ContentKeeps(p, tables);
    ContentKeeps(q, tables);
    LookupWellKeyed(x, k);
    LookupWellKeyed(y, k);
    hide Content, DigestMap, WellKeyed, KeysOnce, Digest, Dumps, Lookup, Alike;
    if Lookup(x, k).Some? && Lookup(y, k).Some? {
      DigestsEqual(Lookup(x, k).value, Lookup(y, k).value, sha);
      DumpsIffAlike(Lookup(x, k).value, Lookup(y, k).value);
    }
  }

  lemma LookupWellKeyed(x: seq<JItem>, k: Text)
    requires WellKeyed(JDict(x))
    ensures Lookup(x, k).Some? ==> WellKeyed(Lookup(x, k).value)
  {
    LookupFinds(x, k);
  }

  /** Without surrogate pairs: exactly at the fields that differ. */
  lemma FieldDigestsLocalise(p: PyValue, q: PyValue, tables: Tables, sha: string -> string, k: Text)
    requires Injective(sha) && Content(p, tables).Ok? && Content(q, tables).Ok?
    requires KeysOnce(p) && KeysOnce(q) && PredictiveNoPairs(p, tables) && PredictiveNoPairs(q, tables)
    ensures FieldDigests(p, tables, sha).Ok? && FieldDigests(q, tables, sha).Ok?
    ensures var dp, dq := FieldDigests(p, tables, sha).value, FieldDigests(q, tables, sha).value;
            AgreeAt(Content(p, tables).value, Content(q, tables).value, k) <==>
              (k in dp <==> k in dq) && (k in dp ==> dp[k] == dq[k])
  {
    var x, y := Content(p, tables).value, Content(q, tables).value;
    hide Content, FieldDigests, WellKeyed, KeysOnce, PredictiveNoPairs, Clean, Lookup, Alike, SameValue;
    ContentKeeps(p, tables);
    ContentKeeps(q, tables);
    FieldDigestsIffAlike(p, q, tables, sha, k);
    if Lookup(x, k).Some? && Lookup(y, k).Some? {
      LookupClean(x, k);
      LookupClean(y, k);
      AlikeIffSame(Lookup(x, k).value, Lookup(y, k).value);
    }
  }

  // ---------------------------------------------------------------- the laws over payloads

  /** `payload.get(k)` for a text key. */
  function Field(items: seq<PyItem>, k: Text): Option<PyValue> {
    if items == [] then None
    else if items[|items| - 1].key == KStr(k) then Some(items[|items| - 1].value)
    else Field(items[..|items| - 1], k)
  }

  /** The key is absent from both, or its values are the same input. */
  ghost predicate SameField(x: seq<PyItem>, y: seq<PyItem>, k: Text) {
    match (Field(x, k), Field(y, k))
    case (Some(v), Some(w)) => SameInput(v, w)
    case (None, None) => true
    case _ => false
  }

  /** The payloads agree at every predictive key. */
  ghost predicate SamePredictive(p: PyValue, q: PyValue, tables: Tables) {
    p.PDict? && q.PDict? && forall k :: k in tables.predictive ==> SameField(p.items, q.items, k)
  }

  lemma {:induction false} FieldNone(items: seq<PyItem>, k: Text)
    ensures Field(items, k).None? <==> forall i :: 0 <= i < |items| ==> items[i].key != KStr(k)
  {
    if items != [] {
      FieldNone(items[..|items| - 1], k);
    }
  }

  lemma {:induction false} FieldAt(items: seq<PyItem>, i: nat, k: Text)
    requires KeysOnce(PDict(items)) && i < |items| && items[i].key == KStr(k)
    ensures Field(items, k) == Some(items[i].value)
  {
    var n := |items| - 1;
    if i < n {
      assert items[n].key != KStr(k);
      assert KeysOnce(PDict(items[..n]));
      FieldAt(items[..n], i, k);
    }
  }

  /** The content at a key represents the payload's value at it, for predictive keys, and is empty for others. */
  lemma ContentField(payload: PyValue, tables: Tables, k: Text)
    requires KeysOnce(payload) && Content(payload, tables).Ok?
    ensures var content := Content(payload, tables).value;
            && (Lookup(content, k).Some? <==> k in tables.predictive && Field(payload.items, k).Some?)
            && (Lookup(content, k).Some? ==> Represents(Field(payload.items, k).value, Lookup(content, k).value))
  {
    var items := payload.items;
    var content := Content(payload, tables).value;
    ContentIsPredictivePart(items, tables, k);
    FieldNone(items, k);
    hide KeysOnce, Represents, Lookup, Field;
    if Lookup(content, k).Some? {
      var i :| 0 <= i < |items| && items[i].key == KStr(k)
                 && Canonical(items[i].value, k) == Ok(Lookup(content, k).value);
      FieldAt(items, i, k);
      CanonicalRepresents(items[i].value, k);
    }
  }

  lemma AgreeIffSameField(p: PyValue, q: PyValue, tables: Tables, k: Text)
    requires KeysOnce(p) && KeysOnce(q) && Content(p, tables).Ok? && Content(q, tables).Ok?
    ensures AgreeAt(Content(p, tables).value, Content(q, tables).value, k) <==>
            (k in tables.predictive ==> SameField(p.items, q.items, k))
  {
    ContentField(p, tables, k);
    ContentField(q, tables, k);
    hide KeysOnce, Content, Represents, Lookup, Field, SameInput, SameValue;
    var a, b := Lookup(Content(p, tables).value, k), Lookup(Content(q, tables).value, k);
    if a.Some? && b.Some? {
      RepresentedSame(Field(p.items, k).value, Field(q.items, k).value, a.value, b.value);
    }
  }

  lemma AgreeIffSamePredictive(p: PyValue, q: PyValue, tables: Tables)
    requires KeysOnce(p) && KeysOnce(q) && Content(p, tables).Ok? && Content(q, tables).Ok?
    ensures (forall k :: AgreeAt(Content(p, tables).value, Content(q, tables).value, k)) <==>
            SamePredictive(p, q, tables)
  {
    assert p.PDict? && q.PDict?;
    hide KeysOnce, Content, AgreeAt, SameField;
    forall k
      ensures AgreeAt(Content(p, tables).value, Content(q, tables).value, k) <==>
              (k in tables.predictive ==> SameField(p.items, q.items, k))
    {
      AgreeIffSameField(p, q, tables, k);
    }
  }

  /**
   * The identity law over payloads: without surrogate pairs in the predictive parts, two
   * accepted payloads have equal fingerprints exactly when they agree at every predictive
   * key.
   */
  lemma HashIffSamePredictive(p: PyValue, q: PyValue, tables: Tables, sha: string -> string)
    requires Injective(sha) && Content(p, tables).Ok? && Content(q, tables).Ok?
    requires KeysOnce(p) && KeysOnce(q) && PredictiveNoPairs(p, tables) && PredictiveNoPairs(q, tables)
    ensures ContentHash(p, tables, sha) == ContentHash(q, tables, sha) <==> SamePredictive(p, q, tables)
  {
    hide KeysOnce, PredictiveNoPairs, Content, ContentHash, AgreeAt, SamePredictive;
    HashIffSameContent(p, q, tables, sha);
    AgreeIffSamePredictive(p, q, tables);
  }

  /** And per-field digests agree at a predictive key exactly when the payloads do. */
  lemma DigestIffSameField(p: PyValue, q: PyValue, tables: Tables, sha: string -> string, k: Text)
    requires Injective(sha) && Content(p, tables).Ok? && Content(q, tables).Ok? && k in tables.predictive
    requires KeysOnce(p) && KeysOnce(q) && PredictiveNoPairs(p, tables) && PredictiveNoPairs(q, tables)
    ensures FieldDigests(p, tables, sha).Ok? && FieldDigests(q, tables, sha).Ok?
    ensures var dp, dq := FieldDigests(p, tables, sha).value, FieldDigests(q, tables, sha).value;
            SameField(p.items, q.items, k) <==> (k in dp <==> k in dq) && (k in dp ==> dp[k] == dq[k])
  {
    hide KeysOnce, PredictiveNoPairs, Content, FieldDigests, AgreeAt, SameField;
    FieldDigestsLocalise(p, q, tables, sha, k);
    AgreeIffSameField(p, q, tables, k);
  }

  predicate HasPredictive(items: seq<PyItem>, tables: Tables) {
    exists i :: 0 <= i < |items| && tables.Predictive(items[i].key)
  }

  predicate AllClassified(items: seq<PyItem>, tables: Tables) {
    forall i :: 0 <= i < |items| ==> tables.Classified(items[i].key)
  }

  /** Every predictive value can be represented. */
  predicate PredictiveRepresentable(items: seq<PyItem>, tables: Tables) {
    forall i :: 0 <= i < |items| && tables.Predictive(items[i].key) ==> Representable(items[i].value)
  }

  /** Item i is the first predictive one that cannot be represented, and e names its first fault. */
  ghost predicate FirstFault(items: seq<PyItem>, tables: Tables, i: int, e: FingerprintError) {
    && 0 <= i < |items| && tables.Predictive(items[i].key)
    && e.NotCanonical? && Faults(items[i].value, items[i].key.text, e.cause)
    && PredictiveRepresentable(items[..i], tables)
  }

  lemma {:induction false} PredictiveEmpty(items: seq<PyItem>, tables: Tables)
    ensures PredictiveItems(items, tables) == [] <==> !HasPredictive(items, tables)
  {
    if items != [] {
      PredictiveEmpty(items[1..], tables);
      assert forall i :: 1 <= i < |items| ==> items[i] == items[1..][i - 1];
      if HasPredictive(items, tables) && !tables.Predictive(items[0].key) {
        var i :| 0 <= i < |items| && tables.Predictive(items[i].key);
        assert tables.Predictive(items[1..][i - 1].key);
      }
    }
  }

  lemma {:induction false} PredictiveContentAccepts(items: seq<PyItem>, tables: Tables)
    ensures CanonicalContent(PredictiveItems(items, tables)).Ok? <==> PredictiveRepresentable(items, tables)
  {
    hide Representable;
    if items != [] {
      PredictiveContentAccepts(items[1..], tables);
      assert forall i :: 1 <= i < |items| ==> items[i] == items[1..][i - 1];
      if tables.Predictive(items[0].key) {
        CanonicalAccepts(items[0].value, items[0].key.text);
        var tail := PredictiveItems(items[1..], tables);
        assert ([items[0]] + tail)[1..] == tail;
      }
    }
  }

  lemma {:induction false} PredictiveContentFaults(items: seq<PyItem>, tables: Tables) returns (i: nat)
    requires CanonicalContent(PredictiveItems(items, tables)).Err?
    ensures FirstFault(items, tables, i, CanonicalContent(PredictiveItems(items, tables)).error)
  {
    hide Representable, Faults;
    var tail := PredictiveItems(items[1..], tables);
    assert ([items[0]] + tail)[1..] == tail;
    if tables.Predictive(items[0].key) {
      CanonicalAccepts(items[0].value, items[0].key.text);
    }
    if tables.Predictive(items[0].key) && Canonical(items[0].value, items[0].key.text).Err? {
      CanonicalFaults(items[0].value, items[0].key.text);
      i := 0;
    } else {
      var j := PredictiveContentFaults(items[1..], tables);
      i := j + 1;
      assert forall k :: 1 <= k < |items| ==> items[k] == items[1..][k - 1];
      assert forall k :: 0 <= k < j ==> items[1..][..j][k] == items[k + 1];
    }
  }

  lemma {:induction false} UnclassifiedMembers(items: seq<PyItem>, tables: Tables, k: PyKey)
    ensures k in Unclassified(items, tables) <==>
            !tables.Classified(k) && exists i :: 0 <= i < |items| && items[i].key == k
  {
    if items != [] {
      UnclassifiedMembers(items[1..], tables, k);
      assert forall i :: 1 <= i < |items| ==> items[i] == items[1..][i - 1];
      if i :| 1 <= i < |items| && items[i].key == k {
        assert items[1..][i - 1].key == k;
      }
    }
  }

  /**
   * What is accepted, and what a refusal says: not a dictionary; else the unclassified
   * keys; else no predictive key; else the first fault of the first bad predictive value.
   */
  lemma ContentAccepts(payload: PyValue, tables: Tables)
    ensures var r := Content(payload, tables);
            if !payload.PDict? then r == Err(NotADict)
            else if !AllClassified(payload.items, tables) then
              && r.Err? && r.error.UnclassifiedKeys?
              && forall k :: k in r.error.keys <==>
                   !tables.Classified(k) && exists i :: 0 <= i < |payload.items| && payload.items[i].key == k
            else if !HasPredictive(payload.items, tables) then r == Err(NoPredictiveContent)
            else if PredictiveRepresentable(payload.items, tables) then r.Ok?
            else r.Err? && exists i :: FirstFault(payload.items, tables, i, r.error)
  {
    if payload.PDict? {
      var items := payload.items;
      forall k
        ensures k in Unclassified(items, tables) <==>
                !tables.Classified(k) && exists i :: 0 <= i < |items| && items[i].key == k
      {
        UnclassifiedMembers(items, tables, k);
      }
      PredictiveEmpty(items, tables);
      PredictiveContentAccepts(items, tables);
      hide PredictiveRepresentable, FirstFault, HasPredictive;
      if CanonicalContent(PredictiveItems(items, tables)).Err? {
        var i := PredictiveContentFaults(items, tables);
      }
    }
  }

  lemma LookupClean(x: seq<JItem>, k: Text)
    requires Clean(JDict(x)) && Lookup(x, k).Some?
    ensures Clean(Lookup(x, k).value)
  {
    LookupFinds(x, k);
  }

  // ---------------------------------------------------------------- operational keys are invisible

  function Extend(tables: Tables, extra: set<Text>): Tables {
    tables.(operational := tables.operational + extra)
  }

  lemma {:induction false} PredictiveItemsExtend(items: seq<PyItem>, tables: Tables, extra: set<Text>)
    ensures PredictiveItems(items, Extend(tables, extra)) == PredictiveItems(items, tables)
  {
    if items != [] {
      PredictiveItemsExtend(items[1..], tables, extra);
    }
  }

  /** Adding operational keys leaves the content, and so the hash, of every accepted payload alone. */
  lemma ExtensionPreservesContent(p: PyValue, tables: Tables, extra: set<Text>)
    requires Content(p, tables).Ok?
    ensures Content(p, Extend(tables, extra)) == Content(p, tables)
  {
    PredictiveItemsExtend(p.items, tables, extra);
  }

  /** `items[key] = value`: replaced in place, or appended. */
  function SetItem(items: seq<PyItem>, key: Text, value: PyValue): seq<PyItem> {
    if items == [] then [PyItem(KStr(key), value)]
    else if items[0].key == KStr(key) then [PyItem(KStr(key), value)] + items[1..]
    else [items[0]] + SetItem(items[1..], key, value)
  }

  /** Setting a key changes that field and no other. */
  lemma {:induction false} FieldAfterSet(items: seq<PyItem>, key: Text, value: PyValue, k: Text)
    requires KeysOnce(PDict(items))
    ensures Field(SetItem(items, key, value), k) == if k == key then Some(value) else Field(items, k)
  {
    if items == [] {
      FieldCons(PyItem(KStr(key), value), [], k);
    } else {
      var rest := items[1..];
      assert items == [items[0]] + rest;
      FieldCons(items[0], rest, k);
      FieldCons(PyItem(KStr(key), value), rest, k);
      RestKeysOnce(items, key);
      FieldCons(items[0], SetItem(rest, key, value), k);
      hide KeysOnce, Field;
      if items[0].key != KStr(key) {
        FieldAfterSet(rest, key, value, k);
      }
    }
  }

  lemma RestKeysOnce(items: seq<PyItem>, key: Text)
    requires items != [] && KeysOnce(PDict(items))
    ensures KeysOnce(PDict(items[1..]))
    ensures items[0].key == KStr(key) ==> Field(items[1..], key).None?
  {
    FieldNone(items[1..], key);
    assert forall i :: 0 <= i < |items[1..]| ==> items[1..][i] == items[i + 1];
  }

  lemma {:induction false} FieldCons(x: PyItem, rest: seq<PyItem>, k: Text)
    ensures Field([x] + rest, k) ==
            if Field(rest, k).Some? then Field(rest, k) else if x.key == KStr(k) then Some(x.value) else None
  {
    var all := [x] + rest;
    if rest == [] {
      assert all[..0] == [];
    } else {
      assert all[..|all| - 1] == [x] + rest[..|rest| - 1];
      FieldCons(x, rest[..|rest| - 1], k);
    }
  }

  predicate Invisible(tables: Tables, key: Text) {
    key in tables.operational && key !in tables.predictive
  }

  lemma {:induction false} SetItemInvisible(items: seq<PyItem>, key: Text, value: PyValue, tables: Tables)
    requires Invisible(tables, key)
    ensures Unclassified(SetItem(items, key, value), tables) == Unclassified(items, tables)
    ensures PredictiveItems(SetItem(items, key, value), tables) == PredictiveItems(items, tables)
  {
    var k := KStr(key);
    assert tables.Classified(k) && !tables.Predictive(k);
    var r := SetItem(items, key, value);
    if items == [] {
      assert r[1..] == [];
    } else if items[0].key == k {
      assert r[1..] == items[1..];
    } else {
      SetItemInvisible(items[1..], key, value, tables);
      assert r[1..] == SetItem(items[1..], key, value);
    }
  }

  /** Setting an operational key is invisible: same content, same hash, same refusal. */
  lemma OperationalKeysInvisible(items: seq<PyItem>, key: Text, value: PyValue, tables: Tables)
    requires Invisible(tables, key)
    ensures Content(PDict(SetItem(items, key, value)), tables) == Content(PDict(items), tables)
  {
    SetItemInvisible(items, key, value, tables);
  }

  // ---------------------------------------------------------------- stamping and verifying

  ghost predicate StampKeysOperational(tables: Tables) {
    Invisible(tables, Chars(FINGERPRINT_KEY)) && Invisible(tables, Chars(VERSION_KEY))
  }

  /** `payload.update(stamp)`. */
  function Merge(items: seq<PyItem>, stamp: seq<PyItem>): seq<PyItem>
    requires forall i :: 0 <= i < |stamp| ==> stamp[i].key.KStr?
    decreases |stamp|
  {
    if stamp == [] then items else Merge(SetItem(items, stamp[0].key.text, stamp[0].value), stamp[1..])
  }

  /**
   * Verification against a stamp. For a stampable payload p, verifying any payload q
   * against p's stamp succeeds exactly when the version is the schema version and q is
   * accepted with a predictive map alike to p's; an accepted q that is not is a mismatch.
   */
  lemma VerifyIffAlike(p: PyValue, q: PyValue, version: PyValue, tables: Tables, sha: string -> string)
    requires Injective(sha) && ContentHash(p, tables, sha).Ok?
    requires KeysOnce(p) && KeysOnce(q)
    ensures var r := Verify(q, ContentHash(p, tables, sha).value, version, tables, sha);
            && (version != PInt(SCHEMA_VERSION) ==> r == Err(VersionGap(version)))
            && (version == PInt(SCHEMA_VERSION) && Content(q, tables).Err? ==> r == Err(Content(q, tables).error))
            && (version == PInt(SCHEMA_VERSION) && Content(q, tables).Ok? ==>
                  (r.Ok? <==> Alike(JDict(Content(p, tables).value), JDict(Content(q, tables).value)))
                  && (r.Err? ==> r.error.Mismatch?))
  {
    if Content(q, tables).Ok? {
      HashIffAlike(p, q, tables, sha);
      assert FieldDigests(q, tables, sha).Ok?;
    }
    hide KeysOnce, Digest, Alike;
  }

  /** Without surrogate pairs: success exactly for the same predictive map. */
  lemma VerifyIffSameContent(p: PyValue, q: PyValue, version: PyValue, tables: Tables, sha: string -> string)
    requires Injective(sha) && ContentHash(p, tables, sha).Ok? && KeysOnce(p) && KeysOnce(q)
    requires PredictiveNoPairs(p, tables) && (Content(q, tables).Ok? ==> PredictiveNoPairs(q, tables))
    ensures var r := Verify(q, ContentHash(p, tables, sha).value, version, tables, sha);
            && (version != PInt(SCHEMA_VERSION) ==> r == Err(VersionGap(version)))
            && (version == PInt(SCHEMA_VERSION) && Content(q, tables).Err? ==> r == Err(Content(q, tables).error))
            && (version == PInt(SCHEMA_VERSION) && Content(q, tables).Ok? ==>
                  (r.Ok? <==> forall k :: AgreeAt(Content(p, tables).value, Content(q, tables).value, k))
                  && (r.Err? ==> r.error.Mismatch?))
  {
    if Content(q, tables).Ok? {
      HashIffAlike(p, q, tables, sha);
      HashIffSameContent(p, q, tables, sha);
    }
    hide KeysOnce, PredictiveNoPairs, Digest, AgreeAt, Alike, Verify, Content, ContentHash;
    VerifyIffAlike(p, q, version, tables, sha);
  }

  /**
   * Over payloads: verification of q against p's stamp succeeds exactly for the schema
   * version and an accepted q that agrees with p at every predictive key. A version gap is
   * raised first, then q's own refusal; otherwise the mismatch reports both hashes and q's
   * per-field digests.
   */
  lemma VerifyIffSamePredictive(p: PyValue, q: PyValue, version: PyValue, tables: Tables, sha: string -> string)
    requires Injective(sha) && ContentHash(p, tables, sha).Ok? && KeysOnce(p) && KeysOnce(q)
    requires PredictiveNoPairs(p, tables) && (Content(q, tables).Ok? ==> PredictiveNoPairs(q, tables))
    ensures var expected := ContentHash(p, tables, sha).value;
            Verify(q, expected, version, tables, sha) ==
              if version != PInt(1) then Err(VersionGap(version))
              else if Content(q, tables).Err? then Err(Content(q, tables).error)
              else if SamePredictive(p, q, tables) then Ok(())
              else Err(Mismatch(expected, ContentHash(q, tables, sha).value, FieldDigests(q, tables, sha).value))
  {
    if Content(q, tables).Ok? {
      HashIffSamePredictive(p, q, tables, sha);
    }
    hide SamePredictive, KeysOnce, PredictiveNoPairs, Digest, DigestMap, Injective;
  }

  /** Merging the stamp into the payload it was computed from and verifying succeeds. */
  lemma StampVerifies(items: seq<PyItem>, tables: Tables, sha: string -> string)
    requires StampKeysOperational(tables) && Stamp(PDict(items), tables, sha).Ok?
    ensures var stamp := Stamp(PDict(items), tables, sha).value;
            ContentHash(PDict(items), tables, sha).Ok?
            && Verify(PDict(Merge(items, stamp)), ContentHash(PDict(items), tables, sha).value, stamp[1].value,
                      tables, sha) == Ok(())
  {
    var stamp := Stamp(PDict(items), tables, sha).value;
    var once := SetItem(items, Chars(FINGERPRINT_KEY), stamp[0].value);
    var twice := SetItem(once, Chars(VERSION_KEY), stamp[1].value);
    MergeTwo(items, stamp);
    OperationalKeysInvisible(items, Chars(FINGERPRINT_KEY), stamp[0].value, tables);
    OperationalKeysInvisible(once, Chars(VERSION_KEY), stamp[1].value, tables);
    hide Content, SetItem;
    assert Content(PDict(twice), tables) == Content(PDict(items), tables);
    assert ContentHash(PDict(twice), tables, sha) == ContentHash(PDict(items), tables, sha);
  }

  lemma MergeTwo(items: seq<PyItem>, stamp: seq<PyItem>)
    requires |stamp| == 2 && stamp[0].key.KStr? && stamp[1].key.KStr?
    ensures Merge(items, stamp) ==
            SetItem(SetItem(items, stamp[0].key.text, stamp[0].value), stamp[1].key.text, stamp[1].value)
  {
    var once := SetItem(items, stamp[0].key.text, stamp[0].value);
    assert stamp[1..][0] == stamp[1] && stamp[1..][1..] == [];
    assert Merge(once, stamp[1..]) == SetItem(once, stamp[1].key.text, stamp[1].value);
  }
}
