/** `truncate_body` in notify.py: capping a notification body in UTF-8 bytes. */
module Notify {
  import opened Wrappers
  import opened PyText
  import opened Utf8

  const LEAD := "\n"
  const OPENING := " [truncated "
  const UNIT := " bytes "
  const CLOSING := " full text is in the sender's log]"
  const ELLIPSIS: Text := [0x2026]
  const EM_DASH: Text := [0x2014]

  /** `_TRUNCATION_MARKER.format(dropped=n)`. */
  function Marker(n: nat): Text {
    Chars(LEAD) + (ELLIPSIS + (Chars(OPENING) + (Chars(Digits(n)) + (Chars(UNIT) + (EM_DASH + Chars(CLOSING))))))
  }

  /** The bytes left for the body once the marker for `total` bytes is reserved. */
  function Keep(total: nat, limit: int): nat {
    var room := limit - |Encode(Marker(total))|;
    if room > 0 then room else 0
  }

  /** `truncate_body`; None when the text cannot be encoded because it holds a surrogate. */
  function TruncateBody(body: Text, limit: int): Option<Text> {
    if !SurrogateFree(body) then None
    else
      var raw := Encode(body);
      if |raw| <= limit then Some(body)
      else
        var keep := Keep(|raw|, limit);
        CutFits(body, keep);
        var head := DecodeIgnore(raw[..keep]);
        var dropped := |raw| - |Encode(head)|;
        Some(head + Marker(dropped))
  }

  lemma CutFits(body: Text, keep: nat)
    requires SurrogateFree(body) && keep <= |Encode(body)|
    ensures DecodeIgnore(Encode(body)[..keep]) == body[..PrefixFitting(body, keep)]
    ensures |Encode(body[..PrefixFitting(body, keep)])| <= keep
  {
    DecodeCut(body, keep);
    PrefixFittingLongest(body, keep, PrefixFitting(body, keep));
  }

  // ---------------------------------------------------------------- the marker

  /** The marker takes sixty bytes and one per digit. */
  lemma MarkerSize(n: nat)
    ensures |Encode(Marker(n))| == 60 + |Digits(n)|
  {
    hide Digits;
    LiteralSize(LEAD);
    LiteralSize(OPENING);
    LiteralSize(Digits(n));
    LiteralSize(UNIT);
    LiteralSize(CLOSING);
    ThreeByteSize(0x2026);
    ThreeByteSize(0x2014);
    var a, b := Chars(LEAD), ELLIPSIS;
    var c, d, e, f, g := Chars(OPENING), Chars(Digits(n)), Chars(UNIT), EM_DASH, Chars(CLOSING);
    hide Encode, Chars;
    EncodeAppend(f, g);
    EncodeAppend(e, f + g);
    EncodeAppend(d, e + (f + g));
    EncodeAppend(c, d + (e + (f + g)));
    EncodeAppend(b, c + (d + (e + (f + g))));
    EncodeAppend(a, b + (c + (d + (e + (f + g)))));
  }

  /** The marker is fixed text around the decimal digits of the number it states. */
  lemma MarkerStates(n: nat)
    ensures exists digits: string :: AllDigits(digits) && DecimalValue(digits) == n
              && Marker(n) == Chars("\n") + [0x2026] + Chars(" [truncated ") + Chars(digits) + Chars(" bytes ") +
                              [0x2014] + Chars(" full text is in the sender's log]")
  {
    DigitsRead(n);
    hide Digits, DecimalValue, Chars;
    assert Marker(n) == Chars("\n") + [0x2026] + Chars(" [truncated ") + Chars(Digits(n)) + Chars(" bytes ") +
                        [0x2014] + Chars(" full text is in the sender's log]");
  }

  predicate AsciiText(s: string) {
    forall i :: 0 <= i < |s| ==> s[i] as int < 0x80
  }

  lemma LiteralSize(s: string)
    requires AsciiText(s)
    ensures |Encode(Chars(s))| == |s|
  {
    EncodeAscii(Chars(s));
  }

  lemma ThreeByteSize(c: CodePoint)
    requires 0x800 <= c < 0x10000
    ensures |Encode([c])| == 3
  {
  }

  /** Markers contain no surrogate, and a line feed only at the start. */
  lemma MarkerShape(n: nat)
    ensures SurrogateFree(Marker(n))
    ensures |Marker(n)| == 56 + |Digits(n)| && Marker(n)[0] == 10
    ensures forall i :: 1 <= i < |Marker(n)| ==> Marker(n)[i] != 10
  {
    hide Digits;
    var c, d, e, g := Chars(OPENING), Chars(Digits(n)), Chars(UNIT), Chars(CLOSING);
    NoLineFeed(OPENING);
    NoLineFeed(Digits(n));
    NoLineFeed(UNIT);
    NoLineFeed(CLOSING);
    assert Chars(LEAD)[0] == 10;
  }

  lemma NoLineFeed(s: string)
    requires forall i :: 0 <= i < |s| ==> s[i] != '\n'
    ensures forall i :: 0 <= i < |s| ==> Chars(s)[i] != 10
  {
  }

  lemma MarkerInjective(m: nat, n: nat)
    requires Marker(m) == Marker(n)
    ensures m == n
  {
    MarkerShape(m);
    MarkerShape(n);
    var a, b := Marker(m), Marker(n);
    assert |Digits(m)| == |Digits(n)|;
    forall i | 0 <= i < |Digits(m)|
      ensures Digits(m)[i] == Digits(n)[i]
    {
      assert a[14 + i] == Digits(m)[i] as int;
      assert b[14 + i] == Digits(n)[i] as int;
    }
    DigitsInjective(m, n);
  }

  // ---------------------------------------------------------------- what a cut body holds

  /** The limit leaves room for the marker that states the whole body as dropped. */
  predicate MarkerFits(total: nat, limit: int) {
    60 + |Digits(total)| <= limit
  }

  /**
   * An over-long body keeps its longest prefix that fits in the reserved room, and the
   * marker states exactly the bytes the prefix leaves out.
   */
  lemma KeepsLongestPrefix(body: Text, limit: int) returns (m: nat, dropped: nat)
    requires SurrogateFree(body) && |Encode(body)| > limit
    ensures m <= |body| && TruncateBody(body, limit) == Some(body[..m] + Marker(dropped))
    ensures |Encode(body[..m])| + dropped == |Encode(body)|
    ensures var room := limit - 60 - |Digits(|Encode(body)|)|;
            && |Encode(body[..m])| <= (if room > 0 then room else 0)
            && forall k :: m < k <= |body| ==> |Encode(body[..k])| > (if room > 0 then room else 0)
  {
    var keep := Keep(|Encode(body)|, limit);
    MarkerSize(|Encode(body)|);
    assert var room := limit - 60 - |Digits(|Encode(body)|)|; keep == if room > 0 then room else 0;
    m := PrefixFitting(body, keep);
    CutFits(body, keep);
    dropped := |Encode(body)| - |Encode(body[..m])|;
    hide Encode, Keep, PrefixFitting, Marker;
    forall k | m < k <= |body|
      ensures |Encode(body[..k])| > keep
    {
      PrefixFittingLongest(body, keep, k);
    }
  }

  /** Refused exactly for texts that cannot be encoded; otherwise the result can be. */
  lemma TruncatedIsText(body: Text, limit: int)
    ensures TruncateBody(body, limit).Some? <==> SurrogateFree(body)
    ensures SurrogateFree(body) ==> SurrogateFree(TruncateBody(body, limit).value)
  {
    if SurrogateFree(body) && |Encode(body)| > limit {
      var m, dropped := KeepsLongestPrefix(body, limit);
      MarkerShape(dropped);
    }
  }

  /** The size of a cut body. */
  lemma CutSize(body: Text, limit: int)
    requires SurrogateFree(body) && |Encode(body)| > limit
    ensures var size := |Encode(TruncateBody(body, limit).value)|;
            if MarkerFits(|Encode(body)|, limit) then size <= limit else size == 60 + |Digits(|Encode(body)|)|
    ensures !MarkerFits(|Encode(body)|, limit) ==> TruncateBody(body, limit) == Some(Marker(|Encode(body)|))
  {
    var n := |Encode(body)|;
    MarkerSize(n);
    var m, dropped := KeepsLongestPrefix(body, limit);
    EncodeAppend(body[..m], Marker(dropped));
    MarkerSize(dropped);
    DigitsMonotone(dropped, n);
    if !MarkerFits(n, limit) {
      assert Keep(n, limit) == 0;
      NothingFits(body, m);
      assert body[..0] + Marker(n) == Marker(n);
    }
  }

  lemma NothingFits(body: Text, m: nat)
    requires m <= |body| && |Encode(body[..m])| == 0
    ensures m == 0
  {
  }

  /**
   * The cap holds exactly when the body already fits or the limit leaves room for the
   * marker: below that the marker alone exceeds the limit.
   */
  lemma CapHoldsIff(body: Text, limit: int)
    requires SurrogateFree(body)
    ensures |Encode(TruncateBody(body, limit).value)| <= limit <==>
            |Encode(body)| <= limit || MarkerFits(|Encode(body)|, limit)
  {
    if |Encode(body)| > limit {
      CutSize(body, limit);
    }
  }

  /** A body that fits is returned as it is. */
  lemma IdentityUnderLimit(body: Text, limit: int)
    requires SurrogateFree(body) && |Encode(body)| <= limit
    ensures TruncateBody(body, limit) == Some(body)
  {
  }

  // ---------------------------------------------------------------- idempotence

  lemma {:induction false} DigitsShort(n: nat)
    ensures |Digits(n)| <= 1 + n / 10
  {
    if n >= 10 {
      DigitsShort(n / 10);
    }
  }

  /** The only marker whose size is the number it states is the one for 62 bytes. */
  lemma MarkerFixedPoint(n: nat)
    ensures n == 60 + |Digits(n)| <==> n == 62
  {
    DigitsShort(n);
    if n < 100 {
      assert n >= 10 ==> |Digits(n)| == |Digits(n / 10)| + 1;
    }
  }

  /** Cutting a bare marker again gives the same marker only if it states its own size. */
  lemma RecutMarker(n: nat, limit: int)
    requires 60 + |Digits(n)| > limit
    ensures TruncateBody(Marker(n), limit) == Some(Marker(n)) <==> n == 60 + |Digits(n)|
  {
    var body := Marker(n);
    MarkerShape(n);
    MarkerSize(n);
    var m, dropped := KeepsLongestPrefix(body, limit);
    var r := body[..m] + Marker(dropped);
    MarkerShape(dropped);
    hide Marker, Digits, TruncateBody, Keep, Encode;
    if m == 0 {
      assert r == Marker(dropped);
      EncodeNothing(body);
      if r == body {
        MarkerInjective(dropped, n);
      }
    } else {
      assert r[m] == 10;
      assert r != body;
      if n == 60 + |Digits(n)| {
        OwnSizeKeepsNothing(n, limit, m);
      }
    }
  }

  lemma EncodeNothing(body: Text)
    ensures |Encode(body[..0])| == 0
  {
  }

  /** A marker that states its own size leaves no room for any of its text. */
  lemma OwnSizeKeepsNothing(n: nat, limit: int, m: nat)
    requires n == 60 + |Digits(n)| && n > limit && m <= |Marker(n)|
    requires |Encode(Marker(n)[..m])| <= Keep(|Encode(Marker(n))|, limit)
    ensures m == 0
  {
    MarkerSize(n);
    NothingFits(Marker(n), m);
  }

  /**
   * Truncation is idempotent exactly when the cap holds, or by coincidence when the
   * body is 62 bytes long, the size of the marker that then replaces it.
   */
  lemma IdempotentIff(body: Text, limit: int)
    requires SurrogateFree(body)
    ensures TruncateBody(TruncateBody(body, limit).value, limit) == TruncateBody(body, limit) <==>
            |Encode(body)| <= limit || MarkerFits(|Encode(body)|, limit) || |Encode(body)| == 62
  {
    var n := |Encode(body)|;
    TruncatedIsText(body, limit);
    var once := TruncateBody(body, limit).value;
    if n > limit {
      CutSize(body, limit);
      if MarkerFits(n, limit) {
        IdentityUnderLimit(once, limit);
      } else {
        RecutMarker(n, limit);
        MarkerFixedPoint(n);
      }
    }
  }

  /** A ten-byte body under a zero limit is rewritten twice: neither capped nor idempotent. */
  lemma TinyLimitExample()
    ensures var body := Chars("abcdefghij");
            && |Encode(TruncateBody(body, 0).value)| > 0
            && TruncateBody(TruncateBody(body, 0).value, 0) != TruncateBody(body, 0)
  {
    var body := Chars("abcdefghij");
    EncodeAscii(body);
    CapHoldsIff(body, 0);
    IdempotentIff(body, 0);
  }
}
