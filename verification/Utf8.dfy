/**
 * UTF-8 as Python encodes and decodes it: RFC 3629, sections 3 and 4. Decoding is with
 * `errors="ignore"`, which drops every byte that is not part of a well-formed sequence.
 */
module Utf8 {
  import opened Wrappers
  import opened PyText

  type Bytes = seq<int>

  function EncodeOne(c: CodePoint): (b: Bytes)
    ensures 1 <= |b| <= 4
  {
    if c < 0x80 then [c]
    else if c < 0x800 then [0xC0 + c / 64, 0x80 + c % 64]
    else if c < 0x10000 then [0xE0 + c / 4096, 0x80 + c / 64 % 64, 0x80 + c % 64]
    else [0xF0 + c / 262144, 0x80 + c / 4096 % 64, 0x80 + c / 64 % 64, 0x80 + c % 64]
  }

  /** The bytes of a text without surrogates. */
  function Encode(t: Text): Bytes {
    if t == [] then [] else EncodeOne(t[0]) + Encode(t[1..])
  }

  predicate IsTail(b: int) {
    0x80 <= b <= 0xBF
  }

  /** The character a byte sequence starts with, and its length in bytes. */
  function DecodeOne(b: Bytes): (r: Option<(CodePoint, nat)>)
    ensures r.Some? ==> 1 <= r.value.1 <= |b|
  {
    if |b| >= 1 && 0 <= b[0] < 0x80 then Some((b[0], 1))
    else if |b| >= 2 && 0xC2 <= b[0] <= 0xDF && IsTail(b[1]) then
      Some(((b[0] - 0xC0) * 64 + (b[1] - 0x80), 2))
    else if |b| >= 3 && 0xE0 <= b[0] <= 0xEF && IsTail(b[1]) && IsTail(b[2])
            && (b[0] == 0xE0 ==> b[1] >= 0xA0) && (b[0] == 0xED ==> b[1] <= 0x9F) then
      Some(((b[0] - 0xE0) * 4096 + (b[1] - 0x80) * 64 + (b[2] - 0x80), 3))
    else if |b| >= 4 && 0xF0 <= b[0] <= 0xF4 && IsTail(b[1]) && IsTail(b[2]) && IsTail(b[3])
            && (b[0] == 0xF0 ==> b[1] >= 0x90) && (b[0] == 0xF4 ==> b[1] <= 0x8F) then
      Some(((b[0] - 0xF0) * 262144 + (b[1] - 0x80) * 4096 + (b[2] - 0x80) * 64 + (b[3] - 0x80), 4))
    else None
  }

  /** `b.decode("utf-8", errors="ignore")`. */
  function DecodeIgnore(b: Bytes): Text
    decreases |b|
  {
    if b == [] then []
    else
      match DecodeOne(b)
      case Some((c, n)) => [c] + DecodeIgnore(b[n..])
      case None => DecodeIgnore(b[1..])
  }

  /** Characters of two, three and four bytes from the examples of RFC 3629, section 7. */
  lemma StandardExamples()
    ensures EncodeOne(0x391) == [0xCE, 0x91] && EncodeOne(0x2262) == [0xE2, 0x89, 0xA2]
    ensures EncodeOne(0xD55C) == [0xED, 0x95, 0x9C] && EncodeOne(0x233B4) == [0xF0, 0xA3, 0x8E, 0xB4]
  {
  }

  // ---------------------------------------------------------------- one character

  /** A character decodes back, whatever follows it. */
  lemma DecodeEncodeOne(c: CodePoint, rest: Bytes)
    requires !IsSurrogate(c)
    ensures DecodeOne(EncodeOne(c) + rest) == Some((c, |EncodeOne(c)|))
  {
    var e := EncodeOne(c);
    var b := e + rest;
    assert forall i :: 0 <= i < |e| ==> b[i] == e[i];
    if c >= 0x10000 {
      Split4(c);
    } else if c >= 0x800 {
      Split3(c);
    }
  }

  lemma Base64(q: int, d: int)
    requires 0 <= d < 64
    ensures (64 * q + d) / 64 == q && (64 * q + d) % 64 == d
  {
  }

  lemma ThreeDigits(x: int, y: int, z: int)
    requires 0 <= y < 64 && 0 <= z < 64
    ensures var c := 4096 * x + 64 * y + z; c / 4096 == x && c / 64 % 64 == y && c % 64 == z
  {
    Base64(x, y);
    Base64(64 * x + y, z);
  }

  lemma FourDigits(w: int, x: int, y: int, z: int)
    requires 0 <= x < 64 && 0 <= y < 64 && 0 <= z < 64
    ensures var c := 262144 * w + 4096 * x + 64 * y + z;
            c / 262144 == w && c / 4096 % 64 == x && c / 64 % 64 == y && c % 64 == z
  {
    Base64(w, x);
    ThreeDigits(64 * w + x, y, z);
  }

  lemma ThreeBytes(b: Bytes, c: CodePoint)
    requires |b| >= 3 && 0xE0 <= b[0] <= 0xEF && IsTail(b[1]) && IsTail(b[2])
    requires (b[0] == 0xE0 ==> b[1] >= 0xA0) && (b[0] == 0xED ==> b[1] <= 0x9F)
    requires c == (b[0] - 0xE0) * 4096 + (b[1] - 0x80) * 64 + (b[2] - 0x80)
    ensures 0x800 <= c < 0x10000 && !IsSurrogate(c) && EncodeOne(c) == b[..3]
  {
    ThreeDigits(b[0] - 0xE0, b[1] - 0x80, b[2] - 0x80);
  }

  lemma FourBytes(b: Bytes, c: CodePoint)
    requires |b| >= 4 && 0xF0 <= b[0] <= 0xF4 && IsTail(b[1]) && IsTail(b[2]) && IsTail(b[3])
    requires b[0] == 0xF0 ==> b[1] >= 0x90
    requires c == (b[0] - 0xF0) * 262144 + (b[1] - 0x80) * 4096 + (b[2] - 0x80) * 64 + (b[3] - 0x80)
    ensures 0x10000 <= c && !IsSurrogate(c) && EncodeOne(c) == b[..4]
  {
    FourDigits(b[0] - 0xF0, b[1] - 0x80, b[2] - 0x80, b[3] - 0x80);
  }

  lemma TwoBytes(b: Bytes, c: CodePoint)
    requires |b| >= 2 && 0xC2 <= b[0] <= 0xDF && IsTail(b[1]) && c == (b[0] - 0xC0) * 64 + (b[1] - 0x80)
    ensures 0x80 <= c < 0x800 && EncodeOne(c) == b[..2]
  {
    Base64(b[0] - 0xC0, b[1] - 0x80);
  }

  /** Only well-formed sequences decode: the character read is no surrogate and encodes to the bytes read. */
  lemma DecodeOneSound(b: Bytes)
    requires DecodeOne(b).Some?
    ensures var (c, n) := DecodeOne(b).value; !IsSurrogate(c) && EncodeOne(c) == b[..n]
  {
    var (c, n) := DecodeOne(b).value;
    if n == 1 {
      assert b[..1] == [b[0]];
    } else {
      hide EncodeOne;
      if n == 2 {
        TwoBytes(b, c);
      } else if n == 3 {
        ThreeBytes(b, c);
      } else {
        FourBytes(b, c);
      }
    }
  }

  lemma Split3(c: CodePoint)
    ensures c == c / 4096 * 4096 + c / 64 % 64 * 64 + c % 64
  {
  }

  lemma Split4(c: CodePoint)
    ensures c == c / 262144 * 262144 + c / 4096 % 64 * 4096 + c / 64 % 64 * 64 + c % 64
  {
    assert c / 4096 == 64 * (c / 262144) + c / 4096 % 64;
    Split3(c);
  }

  /** A character cut short is dropped entirely: its lead byte fails, then its tail bytes do. */
  lemma CutCharacterDropped(c: CodePoint, k: nat)
    requires k < |EncodeOne(c)|
    ensures DecodeIgnore(EncodeOne(c)[..k]) == []
  {
    var b := EncodeOne(c)[..k];
    if k > 0 {
      assert DecodeOne(b) == None;
      TailsDropped(b[1..]);
    }
  }

  lemma {:induction false} TailsDropped(b: Bytes)
    requires forall i :: 0 <= i < |b| ==> IsTail(b[i])
    ensures DecodeIgnore(b) == []
  {
    if b != [] {
      TailsDropped(b[1..]);
    }
  }

  // ---------------------------------------------------------------- sizes and prefixes

  /** The number of leading characters whose bytes fit in k. */
  function PrefixFitting(t: Text, k: nat): (m: nat)
    ensures m <= |t|
  {
    if t == [] || |EncodeOne(t[0])| > k then 0
    else 1 + PrefixFitting(t[1..], k - |EncodeOne(t[0])|)
  }

  /** It is the longest prefix that fits. */
  lemma {:induction false} PrefixFittingLongest(t: Text, k: nat, m: nat)
    requires m <= |t|
    ensures |Encode(t[..m])| <= k <==> m <= PrefixFitting(t, k)
  {
    if m > 0 {
      assert t[..m][1..] == t[1..][..m - 1];
      if |EncodeOne(t[0])| <= k {
        PrefixFittingLongest(t[1..], k - |EncodeOne(t[0])|, m - 1);
      }
    }
  }

  lemma {:induction false} EncodeAppend(s: Text, t: Text)
    ensures Encode(s + t) == Encode(s) + Encode(t)
  {
    if s == [] {
      assert s + t == t;
    } else {
      hide Encode, EncodeOne;
      EncodeUnfold(s);
      EncodeUnfold(s + t);
      assert (s + t)[1..] == s[1..] + t;
      EncodeAppend(s[1..], t);
      ConcatAssociates(EncodeOne(s[0]), Encode(s[1..]), Encode(t));
    }
  }

  lemma EncodeUnfold(t: Text)
    requires t != []
    ensures Encode(t) == EncodeOne(t[0]) + Encode(t[1..])
  {
  }

  lemma {:induction false} EncodeAscii(t: Text)
    requires forall i :: 0 <= i < |t| ==> t[i] < 0x80
    ensures |Encode(t)| == |t|
  {
    if t != [] {
      EncodeAscii(t[1..]);
    }
  }

  /** Cutting the bytes of a text and decoding leniently yields the longest prefix that fits. */
  lemma {:induction false} DecodeCut(t: Text, k: nat)
    requires SurrogateFree(t) && k <= |Encode(t)|
    ensures DecodeIgnore(Encode(t)[..k]) == t[..PrefixFitting(t, k)]
  {
    hide EncodeOne, DecodeOne, IsSurrogate;
    if t != [] {
      var e, rest := EncodeOne(t[0]), Encode(t[1..]);
      if |e| > k {
        assert Encode(t)[..k] == e[..k];
        CutCharacterDropped(t[0], k);
      } else {
        var tail := rest[..k - |e|];
        assert Encode(t)[..k] == e + tail;
        DecodeEncodeOne(t[0], tail);
        assert (e + tail)[|e|..] == tail;
        DecodeCut(t[1..], k - |e|);
        assert t[..PrefixFitting(t, k)] == [t[0]] + t[1..][..PrefixFitting(t[1..], k - |e|)];
      }
    }
  }

  /** Decoding inverts encoding. */
  lemma DecodeEncode(t: Text)
    requires SurrogateFree(t)
    ensures DecodeIgnore(Encode(t)) == t
  {
    DecodeCut(t, |Encode(t)|);
    PrefixFittingLongest(t, |Encode(t)|, |t|);
    assert t[..|t|] == t;
    assert Encode(t)[..|Encode(t)|] == Encode(t);
  }
}
