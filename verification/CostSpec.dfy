/**
 * The cost specification of cost_model.py: its four components, the check they pass,
 * the dictionary form and the content hash. None stands for a value that is not finite.
 */
module CostSpec {
  import opened Wrappers
  import opened PyText
  import opened JsonPrinter
  import opened CanonicalJson
  import Fingerprint

  const BPS := 10000.0

  /** `_SPEC_FIELDS`. */
  const SPEC_FIELDS: seq<Text> :=
    [Chars("fee_bps"), Chars("spread_bps"), Chars("slippage_bps"), Chars("increment_rounding_bps")]

  datatype SpecError = InvalidComponent(name: Text) | UnknownComponents(names: set<Text>)

  datatype CostModelSpec = CostModelSpec(feeBps: real, spreadBps: real, slippageBps: real, roundingBps: real) {
    predicate Valid() {
      feeBps >= 0.0 && spreadBps >= 0.0 && slippageBps >= 0.0 && roundingBps >= 0.0
    }

    /** The components in the order of SPEC_FIELDS. */
    function Components(): (values: seq<real>)
      ensures |values| == |SPEC_FIELDS|
    {
      [feeBps, spreadBps, slippageBps, roundingBps]
    }

    /** `per_side_cost_bps`. */
    function PerSideBps(): (r: real)
      ensures 2.0 * r == 2.0 * feeBps + spreadBps + 2.0 * slippageBps + 2.0 * roundingBps
    {
      feeBps + spreadBps / 2.0 + slippageBps + roundingBps
    }

    /** `round_trip_cost_bps`: the full quoted spread is paid once, everything else twice. */
    function RoundTripBps(): (r: real)
      ensures r == 2.0 * (feeBps + slippageBps + roundingBps) + spreadBps
    {
      2.0 * PerSideBps()
    }

    /** The per-side cost as a fraction. */
    function Rate(): (r: real)
      ensures 10_000.0 * r == PerSideBps()
      ensures Valid() ==> r >= 0.0
    {
      PerSideBps() / BPS
    }
  }

  // ---------------------------------------------------------------- construction

  predicate Acceptable(v: Option<real>) {
    v.Some? && v.value >= 0.0
  }

  /** Position k holds the first component that is not acceptable. */
  ghost predicate FirstBad(given: seq<Option<real>>, k: int) {
    0 <= k < |given| && !Acceptable(given[k]) && forall j :: 0 <= j < k ==> Acceptable(given[j])
  }

  /** What construction from the given components must return: their specification, or the first bad name. */
  ghost predicate Builds(given: seq<Option<real>>, r: Result<CostModelSpec, SpecError>)
    requires |given| == |SPEC_FIELDS|
  {
    match r
    case Ok(spec) => spec.Valid() && forall i :: 0 <= i < |given| ==> given[i] == Some(spec.Components()[i])
    case Err(e) => exists k :: FirstBad(given, k) && e == InvalidComponent(SPEC_FIELDS[k])
  }

  /** `__post_init__`: check the fields one after the other. */
  method MakeSpec(given: seq<Option<real>>) returns (r: Result<CostModelSpec, SpecError>)
    requires |given| == |SPEC_FIELDS|
    ensures Builds(given, r)
    ensures r.Ok? ==> given == [Some(r.value.feeBps), Some(r.value.spreadBps), Some(r.value.slippageBps),
                                Some(r.value.roundingBps)]
    ensures r.Ok? <==> forall i :: 0 <= i < |given| ==> Acceptable(given[i])
  {
    var values: seq<real> := [];
    for i := 0 to |SPEC_FIELDS|
      invariant |values| == i
      invariant forall j :: 0 <= j < i ==> Acceptable(given[j]) && given[j] == Some(values[j])
    {
      if !Acceptable(given[i]) {
        assert FirstBad(given, i);
        return Err(InvalidComponent(SPEC_FIELDS[i]));
      }
      values := values + [given[i].value];
    }
    r := Ok(CostModelSpec(values[0], values[1], values[2], values[3]));
  }

  // ---------------------------------------------------------------- the dictionary form

  type Payload = map<Text, Option<real>>

  /** `to_dict`. */
  function ToDict(spec: CostModelSpec): (payload: Payload)
    ensures payload == map[
              Chars("fee_bps") := Some(spec.feeBps),
              Chars("spread_bps") := Some(spec.spreadBps),
              Chars("slippage_bps") := Some(spec.slippageBps),
              Chars("increment_rounding_bps") := Some(spec.roundingBps)]
  {
    map[
      SPEC_FIELDS[0] := Some(spec.feeBps),
      SPEC_FIELDS[1] := Some(spec.spreadBps),
      SPEC_FIELDS[2] := Some(spec.slippageBps),
      SPEC_FIELDS[3] := Some(spec.roundingBps)
    ]
  }

  function Unknown(payload: Payload): set<Text> {
    set k | k in payload && k !in SPEC_FIELDS
  }

  /** The components a payload gives; a missing one is zero. */
  function Given(payload: Payload): (given: seq<Option<real>>)
    ensures |given| == |SPEC_FIELDS|
    ensures forall i :: 0 <= i < |given| ==>
              given[i] == if SPEC_FIELDS[i] in payload then payload[SPEC_FIELDS[i]] else Some(0.0)
  {
    seq(|SPEC_FIELDS|, i requires 0 <= i < |SPEC_FIELDS| =>
      if SPEC_FIELDS[i] in payload then payload[SPEC_FIELDS[i]] else Some(0.0))
  }

  /** What reading a payload back must return. */
  ghost predicate Reads(payload: Payload, r: Result<CostModelSpec, SpecError>) {
    if Unknown(payload) != {} then r == Err(UnknownComponents(Unknown(payload)))
    else Builds(Given(payload), r)
  }

  /** `cost_model_spec_from_dict`. */
  method FromDict(payload: Payload) returns (r: Result<CostModelSpec, SpecError>)
    ensures Reads(payload, r)
    ensures r.Ok? <==> Unknown(payload) == {} && forall k :: k in payload ==> Acceptable(payload[k])
  {
    if Unknown(payload) != {} {
      return Err(UnknownComponents(Unknown(payload)));
    }
    GivenAcceptable(payload);
    r := MakeSpec(Given(payload));
  }

  lemma GivenAcceptable(payload: Payload)
    requires Unknown(payload) == {}
    ensures (forall i :: 0 <= i < |SPEC_FIELDS| ==> Acceptable(Given(payload)[i])) <==>
            (forall k :: k in payload ==> Acceptable(payload[k]))
  {
    if forall i :: 0 <= i < |SPEC_FIELDS| ==> Acceptable(Given(payload)[i]) {
      forall k | k in payload
        ensures Acceptable(payload[k])
      {
        assert k !in Unknown(payload);
        var i :| 0 <= i < |SPEC_FIELDS| && SPEC_FIELDS[i] == k;
        assert Given(payload)[i] == payload[k];
      }
    }
  }

  lemma FieldsDistinct()
    ensures forall i, j :: 0 <= i < j < |SPEC_FIELDS| ==> SPEC_FIELDS[i] != SPEC_FIELDS[j]
  {
    assert |SPEC_FIELDS[0]| == 7 && |SPEC_FIELDS[1]| == 10 && |SPEC_FIELDS[2]| == 12 && |SPEC_FIELDS[3]| == 22;
  }

  lemma ToDictGives(spec: CostModelSpec)
    ensures Unknown(ToDict(spec)) == {}
    ensures forall i :: 0 <= i < |SPEC_FIELDS| ==> Given(ToDict(spec))[i] == Some(spec.Components()[i])
  {
    FieldsDistinct();
  }

  /** The components determine what is built: a specification, or the name of the first bad one. */
  lemma BuildsOnce(given: seq<Option<real>>, r: Result<CostModelSpec, SpecError>, s: Result<CostModelSpec, SpecError>)
    requires |given| == |SPEC_FIELDS| && Builds(given, r) && Builds(given, s)
    ensures r == s
  {
    match (r, s)
    case (Ok(a), Ok(b)) =>
      assert forall i :: 0 <= i < 4 ==> Some(a.Components()[i]) == given[i] == Some(b.Components()[i]);
      assert a.Components()[0] == b.Components()[0] && a.Components()[1] == b.Components()[1];
      assert a.Components()[2] == b.Components()[2] && a.Components()[3] == b.Components()[3];
    case (Err(_), Err(_)) =>
      var k :| FirstBad(given, k) && r.error == InvalidComponent(SPEC_FIELDS[k]);
      var j :| FirstBad(given, j) && s.error == InvalidComponent(SPEC_FIELDS[j]);
      assert j == k;
    case _ =>
  }

  /** The dictionary form reads back as the specification it came from, and as nothing else. */
  lemma ReadBack(spec: CostModelSpec, r: Result<CostModelSpec, SpecError>)
    requires spec.Valid()
    ensures Reads(ToDict(spec), r) <==> r == Ok(spec)
  {
    ToDictGives(spec);
    assert Builds(Given(ToDict(spec)), Ok(spec));
    hide Builds;
    if Reads(ToDict(spec), r) {
      BuildsOnce(Given(ToDict(spec)), r, Ok(spec));
    }
  }

  /** Whatever a payload reads back as, its dictionary form is that payload with the missing components as zeros. */
  lemma WrittenBack(payload: Payload, spec: CostModelSpec)
    requires Reads(payload, Ok(spec))
    ensures Given(ToDict(spec)) == Given(payload)
    ensures forall k :: k in payload ==> k in ToDict(spec) && ToDict(spec)[k] == payload[k]
  {
    ToDictGives(spec);
    forall k | k in payload
      ensures k in ToDict(spec) && ToDict(spec)[k] == payload[k]
    {
      assert k !in Unknown(payload);
      var i :| 0 <= i < |SPEC_FIELDS| && SPEC_FIELDS[i] == k;
      assert Given(payload)[i] == payload[k];
    }
  }

  // ---------------------------------------------------------------- content identity

  /** `to_dict` with each number as its `repr`. */
  function Printable(spec: CostModelSpec, repr: real -> FloatText): (items: seq<JItem>)
    ensures |items| == |SPEC_FIELDS|
    ensures forall i :: 0 <= i < |items| ==> items[i] == JItem(SPEC_FIELDS[i], JFloat(repr(spec.Components()[i])))
  {
    seq(|SPEC_FIELDS|, i requires 0 <= i < |SPEC_FIELDS| =>
      JItem(SPEC_FIELDS[i], JFloat(repr(spec.Components()[i]))))
  }

  /** `cost_model_content_sha256`. */
  function SpecHash(spec: CostModelSpec, repr: real -> FloatText, sha: string -> string): string {
    Fingerprint.Digest(JDict(Printable(spec, repr)), sha)
  }

  /** `repr` of a float reads back as that float: on the numbers that are floats it is injective. */
  ghost predicate RoundTrips(repr: real -> FloatText, floats: iset<real>) {
    forall x, y :: x in floats && y in floats && repr(x) == repr(y) ==> x == y
  }

  /** Every component is a float. */
  ghost predicate OfFloats(spec: CostModelSpec, floats: iset<real>) {
    forall i :: 0 <= i < |SPEC_FIELDS| ==> spec.Components()[i] in floats
  }

  lemma PrintableClean(spec: CostModelSpec, repr: real -> FloatText)
    ensures Clean(JDict(Printable(spec, repr)))
  {
    FieldsDistinct();
  }

  lemma SameNumber(u: FloatText, v: FloatText)
    ensures SameValue(JFloat(u), JFloat(v)) <==> u == v
  {
  }

  lemma PrintableSame(a: CostModelSpec, b: CostModelSpec, repr: real -> FloatText, floats: iset<real>)
    requires RoundTrips(repr, floats) && OfFloats(a, floats) && OfFloats(b, floats)
    requires SameItems(Printable(a, repr), Printable(b, repr))
    ensures a == b
  {
    var x, y := Printable(a, repr), Printable(b, repr);
    FieldsDistinct();
    hide SPEC_FIELDS, SameValue;
    forall i | 0 <= i < |SPEC_FIELDS|
      ensures a.Components()[i] == b.Components()[i]
    {
      assert LikeSome(x[i], y);
      var j :| 0 <= j < |y| && SameItem(x[i], y[j]);
      SameNumber(repr(a.Components()[i]), repr(b.Components()[j]));
    }
    assert a.Components()[0] == b.Components()[0] && a.Components()[1] == b.Components()[1];
    assert a.Components()[2] == b.Components()[2] && a.Components()[3] == b.Components()[3];
  }

  /** Specifications have the same content hash exactly when they are the same. */
  lemma HashIffSameSpec(a: CostModelSpec, b: CostModelSpec, repr: real -> FloatText, floats: iset<real>,
                        sha: string -> string)
    requires RoundTrips(repr, floats) && OfFloats(a, floats) && OfFloats(b, floats) && Fingerprint.Injective(sha)
    ensures SpecHash(a, repr, sha) == SpecHash(b, repr, sha) <==> a == b
  {
    var x, y := JDict(Printable(a, repr)), JDict(Printable(b, repr));
    PrintableClean(a, repr);
    PrintableClean(b, repr);
    Fingerprint.DigestsEqual(x, y, sha);
    DumpsIffSame(x, y);
    if SpecHash(a, repr, sha) == SpecHash(b, repr, sha) {
      PrintableSame(a, b, repr, floats);
    }
  }

  /** Payloads that read back have the same content hash exactly when they give the same components. */
  lemma HashIffSameComponents(p: Payload, q: Payload, a: CostModelSpec, b: CostModelSpec,
                              repr: real -> FloatText, floats: iset<real>, sha: string -> string)
    requires Reads(p, Ok(a)) && Reads(q, Ok(b)) && Fingerprint.Injective(sha)
    requires RoundTrips(repr, floats) && OfFloats(a, floats) && OfFloats(b, floats)
    ensures SpecHash(a, repr, sha) == SpecHash(b, repr, sha) <==> Given(p) == Given(q)
  {
    WrittenBack(p, a);
    WrittenBack(q, b);
    HashIffSameSpec(a, b, repr, floats, sha);
    if Given(p) == Given(q) {
      BuildsOnce(Given(p), Ok(a), Ok(b));
    }
  }
}
