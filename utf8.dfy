/**
 * The hand-written UTF-8 codec: `utf8Decoder` (RFC 3629 section 3, plus the
 * 5- and 6-byte lead forms of RFC 2279 section 2, overlong forms accepted)
 * and `utf8Encoder`, with the UTF-16 surrogate helpers of RFC 2781
 * sections 2.1 and 2.2.
 *
 * Bytes are the values the code sees after masking with 0xff; the source's
 * bit masks are written as the equivalent ranges, `/` and `%`.
 */
module Utf8 {
  import opened JavaLang

  const REPLACEMENT_CHAR: char16 := 0xFFFD
  const QUESTION_MARK: byte := 0x3F

  // ---------------------------------------------------------------------
  // UTF-16 surrogate helpers (U16_IS_SURROGATE, ..., U16_GET_SUPPLEMENTARY)

  /** `(c & 0xfffff800) == 0xd800`. */
  predicate IsSurrogate(c: char16)
  {
    0xD800 <= c <= 0xDFFF
  }

  /** `(c & 0x400) == 0`: only bit 10 is looked at. */
  predicate IsSurrogateLead(c: char16)
  {
    (c as int / 0x400) % 2 == 0
  }

  /** `(c & 0x400) != 0`: only bit 10 is looked at. */
  predicate IsSurrogateTrail(c: char16)
  {
    (c as int / 0x400) % 2 == 1
  }

  /** Among surrogates, bit 10 separates the high (lead) from the low (trail) half. */
  lemma SurrogateHalves(c: char16)
    requires IsSurrogate(c)
    ensures IsSurrogateLead(c) <==> c < 0xDC00
    ensures IsSurrogateTrail(c) <==> 0xDC00 <= c
  {
  }

  const SURROGATE_OFFSET: int := 0xD800 * 0x400 + 0xDC00 - 0x10000

  /** `U16_GET_SUPPLEMENTARY`: the code point of a surrogate pair, computed
      in `long` and cast to `int`; for two chars the value lies between
      -0x35FDC00 and 0x3FFFFFF, so the cast changes nothing. */
  function GetSupplementary(lead: char16, trail: char16): (cp: int)
    ensures 0xD800 <= lead < 0xDC00 && 0xDC00 <= trail <= 0xDFFF ==>
      0x10000 <= cp <= 0x10FFFF &&
      cp - 0x10000 == (lead as int - 0xD800) * 0x400 + (trail as int - 0xDC00)
    ensures 0xD800 <= lead < 0xDC00 ==> 0 <= cp < 0x20_0000
  {
    lead as int * 0x400 + trail as int - SURROGATE_OFFSET
  }

  /** The high surrogate the decoder writes for `val >= 0x10000`. */
  function HighSurrogate(val: int): char16
    requires 0x10000 <= val <= 0x10FFFF
  {
    var x := val % 0x10000;
    var u := (val / 0x10000) % 0x20;
    var w := (u - 1) % 0x10000;
    (0xD800 + w * 0x40 + x / 0x400) as char16
  }

  /** The low surrogate the decoder writes for `val >= 0x10000`. */
  function LowSurrogate(val: int): char16
    requires 0x10000 <= val <= 0x10FFFF
  {
    (0xDC00 + (val % 0x10000) % 0x400) as char16
  }

  /** The decoder's pair is a high/low pair that `GetSupplementary` maps back
      to the same code point (RFC 2781 sections 2.1 and 2.2). */
  lemma PairRoundTrip(val: int)
    requires 0x10000 <= val <= 0x10FFFF
    ensures 0xD800 <= HighSurrogate(val) < 0xDC00
    ensures 0xDC00 <= LowSurrogate(val) <= 0xDFFF
    ensures GetSupplementary(HighSurrogate(val), LowSurrogate(val)) == val
  {
  }

  // ---------------------------------------------------------------------
  // Decoding

  /** Number of continuation bytes a lead byte announces; 0 for a byte that
      is neither ASCII nor a lead (0x80..0xBF, 0xFE, 0xFF). */
  function TrailCount(b: byte): (k: nat)
    ensures k <= 5
  {
    if 0xC0 <= b <= 0xDF then 1        // 110xxxxx
    else if 0xE0 <= b <= 0xEF then 2   // 1110xxxx
    else if 0xF0 <= b <= 0xF7 then 3   // 11110xxx
    else if 0xF8 <= b <= 0xFB then 4   // 111110xx
    else if 0xFC <= b <= 0xFD then 5   // 1111110x
    else 0
  }

  /** `(b & 0xC0) == 0x80`. */
  predicate IsContinuation(b: byte)
  {
    0x80 <= b <= 0xBF
  }

  /** `b0 & (0x1f >> (k - 1))`: the payload bits of a lead byte. */
  function LeadBits(b0: byte, k: nat): (v: nat)
    requires 1 <= k <= 5
    ensures v < 0x20
  {
    if k == 1 then b0 as int % 0x20
    else if k == 2 then b0 as int % 0x10
    else if k == 3 then b0 as int % 0x08
    else if k == 4 then b0 as int % 0x04
    else b0 as int % 0x02
  }

  /** The value accumulated from `acc` by shifting in six bits per continuation byte. */
  function Payload(trail: seq<byte>, acc: nat): nat
  {
    if trail == [] then acc
    else Payload(trail[..|trail| - 1], acc) * 0x40 + trail[|trail| - 1] as int % 0x40
  }

  /** Index of the first byte of `trail` that is not a continuation byte, or `|trail|`. */
  function FirstNonContinuation(trail: seq<byte>): (j: nat)
    ensures j <= |trail|
  {
    if trail == [] || !IsContinuation(trail[0]) then 0
    else 1 + FirstNonContinuation(trail[1..])
  }

  /** The chars written for an accumulated value `val` from a lead with `k`
      continuation bytes. */
  function ScalarChars(val: nat, k: nat): (out: seq<char16>)
    ensures 1 <= |out| <= 2
  {
    if k != 2 && 0xD800 <= val <= 0xDFFF then [REPLACEMENT_CHAR]
    else if val > 0x10FFFF then [REPLACEMENT_CHAR]
    else if val < 0x10000 then [val as char16]
    else [HighSurrogate(val), LowSurrogate(val)]
  }

  /** One iteration of the decoder's outer loop: the chars it writes and the
      number of bytes it consumes. */
  datatype DecodeStep = DecodeStep(out: seq<char16>, consumed: nat)

  function DecodeFirst(bs: seq<byte>): (st: DecodeStep)
    requires |bs| > 0
    ensures 0 < st.consumed <= |bs|
    ensures 1 <= |st.out| <= 2
  {
    var b0 := bs[0];
    if b0 < 0x80 then DecodeStep([b0 as char16], 1)
    else if TrailCount(b0) == 0 then DecodeStep([REPLACEMENT_CHAR], 1)
    else
      var k := TrailCount(b0);
      if 1 + k > |bs| then DecodeStep([REPLACEMENT_CHAR], |bs|)
      else
        var j := FirstNonContinuation(bs[1..1 + k]);
        if j < k then DecodeStep([REPLACEMENT_CHAR], 1 + j)
        else DecodeStep(ScalarChars(Payload(bs[1..1 + k], LeadBits(b0, k)), k), 1 + k)
  }

  /** The chars `utf8Decoder` produces from `bs` when the output has room. */
  function Decode(bs: seq<byte>): seq<char16>
    decreases |bs|, 1
  {
    if bs == [] then [] else DecodeNonEmpty(bs)
  }

  function DecodeNonEmpty(bs: seq<byte>): seq<char16>
    requires |bs| > 0
    decreases |bs|, 0
  {
    var st := DecodeFirst(bs);
    st.out + Decode(bs[st.consumed..])
  }

  /** Whether the last iteration on `bs` writes a surrogate pair (the case the
      decoder's second room check can refuse). */
  predicate EndsInPair(bs: seq<byte>)
    decreases |bs|, 1
  {
    bs != [] && EndsInPairNonEmpty(bs)
  }

  predicate EndsInPairNonEmpty(bs: seq<byte>)
    requires |bs| > 0
    decreases |bs|, 0
  {
    var st := DecodeFirst(bs);
    if st.consumed == |bs| then |st.out| == 2 else EndsInPair(bs[st.consumed..])
  }

  /** With at most two continuation bytes the value stays below 0x10000. */
  lemma ShortPayloadBound(trail: seq<byte>, b0: byte)
    requires 1 <= |trail| <= 2
    ensures Payload(trail, LeadBits(b0, |trail|)) < (if |trail| == 1 then 0x800 else 0x10000)
  {
    var acc := LeadBits(b0, |trail|);
    if |trail| == 2 {
      assert Payload(trail[..1], acc) == acc * 0x40 + trail[0] as int % 0x40;
    }
  }

  /** No iteration writes more chars than it consumes bytes: a pair needs a
      lead with at least three continuation bytes. */
  lemma DecodeFirstShort(bs: seq<byte>)
    requires |bs| > 0
    ensures |DecodeFirst(bs).out| <= DecodeFirst(bs).consumed
  {
    var b0 := bs[0];
    var k := TrailCount(b0);
    if b0 >= 0x80 && k != 0 && 1 + k <= |bs| && FirstNonContinuation(bs[1..1 + k]) == k && k <= 2 {
      ShortPayloadBound(bs[1..1 + k], b0);
    }
  }

  /** The decoded text is never longer than the input, so an output of
      `byteCount` chars always has room. */
  lemma {:induction false} DecodeLength(bs: seq<byte>)
    ensures |Decode(bs)| <= |bs|
    decreases |bs|
  {
    if bs != [] {
      var st := DecodeFirst(bs);
      DecodeFirstShort(bs);
      DecodeLength(bs[st.consumed..]);
    }
  }

  /** A byte with the high bit clear decodes to the same value, one byte each. */
  lemma {:induction false} DecodeAscii(bs: seq<byte>)
    requires forall i :: 0 <= i < |bs| ==> bs[i] < 0x80
    ensures |Decode(bs)| == |bs|
    ensures forall i :: 0 <= i < |bs| ==> Decode(bs)[i] as int == bs[i] as int
    decreases |bs|
  {
    if bs != [] {
      DecodeAscii(bs[1..]);
      assert Decode(bs) == [bs[0] as char16] + Decode(bs[1..]);
    }
  }

  /** A sequence cut short by the end of the input yields one U+FFFD and
      decoding stops there. */
  lemma DecodeTruncated(bs: seq<byte>)
    requires |bs| > 0 && TrailCount(bs[0]) > 0 && 1 + TrailCount(bs[0]) > |bs|
    ensures Decode(bs) == [REPLACEMENT_CHAR]
  {
    assert DecodeFirst(bs) == DecodeStep([REPLACEMENT_CHAR], |bs|);
    assert bs[|bs|..] == [];
    assert Decode(bs) == DecodeNonEmpty(bs);
  }

  /** A byte that cannot start a sequence yields one U+FFFD and decoding goes
      on with the next byte. */
  lemma DecodeStray(bs: seq<byte>)
    requires |bs| > 0 && bs[0] >= 0x80 && TrailCount(bs[0]) == 0
    ensures Decode(bs) == [REPLACEMENT_CHAR] + Decode(bs[1..])
  {
  }

  /** A non-continuation byte inside a sequence yields one U+FFFD and is then
      decoded again as the start of the next sequence. */
  lemma DecodeResync(bs: seq<byte>, j: nat)
    requires |bs| > 0 && 1 + TrailCount(bs[0]) <= |bs|
    requires 1 <= j <= TrailCount(bs[0]) && !IsContinuation(bs[j])
    requires forall m :: 1 <= m < j ==> IsContinuation(bs[m])
    ensures Decode(bs) == [REPLACEMENT_CHAR] + Decode(bs[j..])
  {
    var k := TrailCount(bs[0]);
    var trail := bs[1..1 + k];
    assert !IsContinuation(trail[j - 1]);
    assert forall m :: 0 <= m < j - 1 ==> IsContinuation(trail[m]) by {
      forall m | 0 <= m < j - 1 ensures IsContinuation(trail[m]) {
        assert trail[m] == bs[m + 1];
      }
    }
    FirstNonContinuationAt(trail, j - 1);
    DecodeFirstBroken(bs, trail);
    DecodeAdvance(bs, [REPLACEMENT_CHAR], j);
  }

  /** A lead followed by all the continuation bytes it announces consumes
      them and writes the chars of the accumulated value. */
  lemma DecodeFirstComplete(bs: seq<byte>, trail: seq<byte>)
    requires |bs| > 0 && bs[0] >= 0x80 && TrailCount(bs[0]) > 0 && 1 + TrailCount(bs[0]) <= |bs|
    requires trail == bs[1..1 + TrailCount(bs[0])]
    requires FirstNonContinuation(trail) == TrailCount(bs[0])
    ensures DecodeFirst(bs) ==
      DecodeStep(ScalarChars(Payload(trail, LeadBits(bs[0], |trail|)), |trail|), 1 + |trail|)
  {
  }

  /** A lead whose sequence is broken by a non-continuation byte consumes
      the bytes before that byte. */
  lemma DecodeFirstBroken(bs: seq<byte>, trail: seq<byte>)
    requires |bs| > 0 && TrailCount(bs[0]) > 0 && 1 + TrailCount(bs[0]) <= |bs|
    requires trail == bs[1..1 + TrailCount(bs[0])]
    requires FirstNonContinuation(trail) < TrailCount(bs[0])
    ensures DecodeFirst(bs) == DecodeStep([REPLACEMENT_CHAR], 1 + FirstNonContinuation(trail))
  {
  }

  /** `FirstNonContinuation` is the first index whose byte is not a continuation. */
  lemma {:induction false} FirstNonContinuationAt(trail: seq<byte>, j: nat)
    requires j <= |trail| && (j < |trail| ==> !IsContinuation(trail[j]))
    requires forall m :: 0 <= m < j ==> IsContinuation(trail[m])
    ensures FirstNonContinuation(trail) == j
  {
    if j > 0 {
      FirstNonContinuationAt(trail[1..], j - 1);
    }
  }

  /** A complete, well-delimited unit decodes the same whatever follows it. */
  lemma DecodeConcat(u: seq<byte>, rest: seq<byte>)
    requires |u| > 0
    requires u[0] < 0x80 || (TrailCount(u[0]) > 0 && |u| == 1 + TrailCount(u[0]))
    requires DecodeFirst(u).consumed == |u|
    ensures Decode(u + rest) == DecodeFirst(u).out + Decode(rest)
  {
    var bs := u + rest;
    if u[0] >= 0x80 {
      var k := TrailCount(u[0]);
      assert bs[1..1 + k] == u[1..1 + k];
    }
    assert DecodeFirst(bs) == DecodeFirst(u);
    assert bs[|u|..] == rest;
  }

  // ---------------------------------------------------------------------
  // Encoding

  /** Whether `low` is taken as the trail of a pair after a lead surrogate.
      As written (`strict == false`) only bit 10 is tested; `strict` is the
      RFC 2781 test that `low` is a low surrogate. */
  predicate AcceptsTrail(low: char16, strict: bool)
  {
    if strict then 0xDC00 <= low <= 0xDFFF else IsSurrogateTrail(low)
  }

  /** `110xxxxx 10xxxxxx`. */
  function TwoBytes(ch: char16): seq<byte>
    requires 0x80 <= ch < 0x800
  {
    [(0xC0 + ch as int / 0x40) as byte, (0x80 + ch as int % 0x40) as byte]
  }

  /** `1110xxxx 10xxxxxx 10xxxxxx`. */
  function ThreeBytes(ch: char16): seq<byte>
    requires 0x800 <= ch
  {
    [(0xE0 + ch as int / 0x1000) as byte,
     (0x80 + (ch as int / 0x40) % 0x40) as byte,
     (0x80 + ch as int % 0x40) as byte]
  }

  /** `11110xxx 10xxxxxx 10xxxxxx 10xxxxxx`. */
  function FourBytes(cp: int): seq<byte>
    requires 0 <= cp < 0x20_0000
  {
    [(0xF0 + cp / 0x4_0000) as byte,
     (0x80 + (cp / 0x1000) % 0x40) as byte,
     (0x80 + (cp / 0x40) % 0x40) as byte,
     (0x80 + cp % 0x40) as byte]
  }

  /** One iteration of the encoder's loop: the bytes it writes and the number
      of chars it consumes. */
  datatype EncodeStep = EncodeStep(out: seq<byte>, consumed: nat)

  function EncodeFirst(cs: seq<char16>, strict: bool): (st: EncodeStep)
    requires |cs| > 0
    ensures 0 < st.consumed <= |cs|
    ensures 1 <= |st.out| <= 4
  {
    var ch := cs[0];
    if ch < 0x80 then EncodeStep([ch as int as byte], 1)
    else if ch < 0x800 then EncodeStep(TwoBytes(ch), 1)
    else if IsSurrogate(ch) then
      var low: char16 := if 1 != |cs| then cs[1] else 0;
      if !IsSurrogateLead(ch) || !AcceptsTrail(low, strict) then EncodeStep([QUESTION_MARK], 1)
      else EncodeStep(FourBytes(GetSupplementary(ch, low)), 2)
    else EncodeStep(ThreeBytes(ch), 1)
  }

  function EncodeWith(cs: seq<char16>, strict: bool): seq<byte>
    decreases |cs|, 1
  {
    if cs == [] then [] else EncodeNonEmpty(cs, strict)
  }

  function EncodeNonEmpty(cs: seq<char16>, strict: bool): seq<byte>
    requires |cs| > 0
    decreases |cs|, 0
  {
    var st := EncodeFirst(cs, strict);
    st.out + EncodeWith(cs[st.consumed..], strict)
  }

  /** The bytes `utf8Encoder` produces from `cs` when the output has room. */
  function Encode(cs: seq<char16>): seq<byte>
  {
    EncodeWith(cs, false)
  }

  /** The encoder with the trail test it evidently intends. */
  function EncodeChecked(cs: seq<char16>): seq<byte>
  {
    EncodeWith(cs, true)
  }

  /** Whether the encoder's last iteration on `cs` writes more than one byte
      (the case its room checks refuse when exactly that many bytes remain). */
  predicate EndsMultiByte(cs: seq<char16>)
    decreases |cs|, 1
  {
    cs != [] && EndsMultiByteNonEmpty(cs)
  }

  predicate EndsMultiByteNonEmpty(cs: seq<char16>)
    requires |cs| > 0
    decreases |cs|, 0
  {
    var st := EncodeFirst(cs, false);
    if st.consumed == |cs| then |st.out| > 1 else EndsMultiByte(cs[st.consumed..])
  }

  /** Valid UTF-16 (RFC 2781 section 2.2): every high surrogate is followed
      by a low one and no low surrogate stands alone. */
  predicate WellFormed(cs: seq<char16>)
    decreases |cs|
  {
    if cs == [] then true
    else if 0xD800 <= cs[0] < 0xDC00 then
      |cs| > 1 && 0xDC00 <= cs[1] <= 0xDFFF && WellFormed(cs[2..])
    else if 0xDC00 <= cs[0] <= 0xDFFF then false
    else WellFormed(cs[1..])
  }

  /** `cs` with every surrogate that is not half of a proper pair replaced by '?'. */
  function Sanitize(cs: seq<char16>): seq<char16>
    decreases |cs|
  {
    if cs == [] then []
    else if 0xD800 <= cs[0] < 0xDC00 && |cs| > 1 && 0xDC00 <= cs[1] <= 0xDFFF then
      cs[..2] + Sanitize(cs[2..])
    else if IsSurrogate(cs[0]) then [QUESTION_MARK as int as char16] + Sanitize(cs[1..])
    else [cs[0]] + Sanitize(cs[1..])
  }

  lemma TwoBytesDecode(ch: char16)
    requires 0x80 <= ch < 0x800
    ensures DecodeFirst(TwoBytes(ch)) == DecodeStep([ch], 2)
  {
    var u := TwoBytes(ch);
    var t := u[1..2];
    ContinuationBits(ch as int % 0x40);
    assert TrailCount(u[0]) == 1;
    FirstNonContinuationAt(t, 1);
    var acc := LeadBits(u[0], 1);
    assert acc == ch as int / 0x40;
    PayloadOne(t, acc);
    DivSplit(ch as int, 1);
    assert Payload(t, acc) == ch as int;
    DecodeFirstComplete(u, t);
  }

  lemma ThreeBytesDecode(ch: char16)
    requires 0x800 <= ch
    ensures DecodeFirst(ThreeBytes(ch)) == DecodeStep([ch], 3)
  {
    var u := ThreeBytes(ch);
    var t := u[1..3];
    ContinuationBits((ch as int / 0x40) % 0x40);
    ContinuationBits(ch as int % 0x40);
    assert TrailCount(u[0]) == 2;
    FirstNonContinuationAt(t, 2);
    var acc := LeadBits(u[0], 2);
    assert acc == ch as int / 0x1000;
    PayloadTwo(t, acc);
    ThreeBytesValue(ch as int);
    assert Payload(t, acc) == ch as int;
    DecodeFirstComplete(u, t);
  }

  lemma FourBytesDecode(cp: int)
    requires 0x10000 <= cp <= 0x10FFFF
    ensures DecodeFirst(FourBytes(cp)) == DecodeStep([HighSurrogate(cp), LowSurrogate(cp)], 4)
  {
    var u := FourBytes(cp);
    var t := u[1..4];
    ContinuationBits((cp / 0x1000) % 0x40);
    ContinuationBits((cp / 0x40) % 0x40);
    ContinuationBits(cp % 0x40);
    assert TrailCount(u[0]) == 3;
    FirstNonContinuationAt(t, 3);
    var acc := LeadBits(u[0], 3);
    assert acc == cp / 0x4_0000;
    PayloadThree(t, acc);
    FourBytesValue(cp);
    assert Payload(t, acc) == cp;
    assert ScalarChars(cp, 3) == [HighSurrogate(cp), LowSurrogate(cp)];
    DecodeFirstComplete(u, t);
  }

  /** A continuation byte `0x80 + y` carries `y` in its low six bits. */
  lemma ContinuationBits(y: int)
    requires 0 <= y < 0x40
    ensures (0x80 + y) % 0x40 == y && 0x80 <= 0x80 + y <= 0xBF
  {
  }

  lemma PayloadOne(t: seq<byte>, acc: nat)
    requires |t| == 1
    ensures Payload(t, acc) == acc * 0x40 + t[0] as int % 0x40
  {
    assert t[..0] == [];
  }

  lemma PayloadTwo(t: seq<byte>, acc: nat)
    requires |t| == 2
    ensures Payload(t, acc) == (acc * 0x40 + t[0] as int % 0x40) * 0x40 + t[1] as int % 0x40
  {
    PayloadOne(t[..1], acc);
    assert t[..1][0] == t[0];
  }

  lemma PayloadThree(t: seq<byte>, acc: nat)
    requires |t| == 3
    ensures Payload(t, acc) ==
      ((acc * 0x40 + t[0] as int % 0x40) * 0x40 + t[1] as int % 0x40) * 0x40 + t[2] as int % 0x40
  {
    PayloadTwo(t[..2], acc);
    assert t[..2][0] == t[0] && t[..2][1] == t[1];
  }

  /** The three six-bit (and four-bit) groups of a value below 0x10000 put back together. */
  lemma ThreeBytesValue(x: nat)
    ensures ((x / 0x1000) * 0x40 + (x / 0x40) % 0x40) * 0x40 + x % 0x40 == x
  {
    DivSplit(x, 0x40);
    DivSplit(x, 1);
  }

  /** The four groups of a value below 0x20_0000 put back together. */
  lemma FourBytesValue(x: nat)
    ensures (((x / 0x4_0000) * 0x40 + (x / 0x1000) % 0x40) * 0x40 + (x / 0x40) % 0x40) * 0x40 + x % 0x40 == x
  {
    DivSplit(x, 0x1000);
    ThreeBytesValue(x);
  }

  /** A proper pair goes through `GetSupplementary` and back to the same two chars. */
  lemma PairSplit(lead: char16, trail: char16)
    requires 0xD800 <= lead < 0xDC00 && 0xDC00 <= trail <= 0xDFFF
    ensures HighSurrogate(GetSupplementary(lead, trail)) == lead
    ensures LowSurrogate(GetSupplementary(lead, trail)) == trail
  {
  }

  /** Splitting off six more bits: `x / d == (x / (64 * d)) * 64 + (x / d) % 64`. */
  lemma DivSplit(x: nat, d: nat)
    requires d > 0
    ensures x / d == (x / (0x40 * d)) * 0x40 + (x / d) % 0x40
  {
    assert (x / d) / 0x40 == x / (0x40 * d) by {
      DivDiv(x, d, 0x40);
    }
  }

  lemma DivDiv(x: nat, a: nat, b: nat)
    requires a > 0 && b > 0
    ensures (x / a) / b == x / (a * b)
  {
    DivDivParts(x, a, b);
    DivUnique(x, a * b, (x / a) / b, ((x / a) % b) * a + x % a);
  }

  lemma DivDivParts(x: nat, a: nat, b: nat)
    requires a > 0 && b > 0
    ensures x == ((x / a) / b) * (a * b) + (((x / a) % b) * a + x % a)
    ensures ((x / a) % b) * a + x % a < a * b
  {
    var y, r := x / a, x % a;
    var q, s := y / b, y % b;
    MulSplit(q * b, s, a);
    MulRegroup(q, b, a);
    MulBelow(s, b, a);
  }

  lemma MulSplit(u: int, v: int, a: int)
    ensures (u + v) * a == u * a + v * a
  {
  }

  lemma MulRegroup(q: int, b: int, a: int)
    ensures (q * b) * a == q * (a * b)
  {
  }

  lemma MulBelow(s: nat, b: nat, a: nat)
    requires s < b
    ensures s * a + a <= a * b
  {
    var c: nat := b - (s + 1);
    MulSplit(s, 1, a);
    MulSplit(s + 1, c, a);
    MulNonNegative(c, a);
    assert s + 1 + c == b;
    assert b * a == a * b;
  }

  lemma MulNonNegative(c: nat, a: nat)
    ensures c * a >= 0
  {
  }

  lemma DivUnique(x: int, m: int, q: int, r: int)
    requires m > 0 && x == q * m + r && 0 <= r < m
    ensures x / m == q
  {
    var d := q - x / m;
    assert d * m == x % m - r;
    MulBounds(d, m);
  }

  lemma MulBounds(d: int, m: int)
    requires m > 0
    ensures d >= 1 ==> d * m >= m
    ensures d <= -1 ==> d * m <= -m
  {
  }

  /** One encoder iteration (with the RFC 2781 trail test) writes one complete
      UTF-8 sequence, and decoding it gives back what `Sanitize` keeps of the
      chars it consumed. */
  lemma UnitRoundTrip(cs: seq<char16>)
    requires |cs| > 0
    ensures var u := EncodeFirst(cs, true).out;
      (u[0] < 0x80 || (TrailCount(u[0]) > 0 && |u| == 1 + TrailCount(u[0]))) &&
      DecodeFirst(u).consumed == |u| &&
      DecodeFirst(u).out + Sanitize(cs[EncodeFirst(cs, true).consumed..]) == Sanitize(cs)
  {
    var ch := cs[0];
    var st := EncodeFirst(cs, true);
    if ch < 0x80 {
    } else if ch < 0x800 {
      TwoBytesDecode(ch);
    } else if IsSurrogate(ch) {
      var low: char16 := if 1 != |cs| then cs[1] else 0;
      SurrogateHalves(ch);
      if !IsSurrogateLead(ch) || !AcceptsTrail(low, true) {
        assert st.out == [QUESTION_MARK];
      } else {
        var cp := GetSupplementary(ch, low);
        FourBytesDecode(cp);
        PairSplit(ch, low);
        assert cs[..2] == [ch, low];
      }
    } else {
      ThreeBytesDecode(ch);
    }
  }

  /** Encoding with the RFC 2781 trail test and decoding again gives the
      input with every unpaired surrogate replaced by '?'. */
  lemma {:induction false} EncodeCheckedRoundTrip(cs: seq<char16>)
    ensures Decode(EncodeChecked(cs)) == Sanitize(cs)
    decreases |cs|
  {
    if cs != [] {
      var st := EncodeFirst(cs, true);
      assert EncodeChecked(cs) == st.out + EncodeChecked(cs[st.consumed..]) by {
        assert EncodeWith(cs, true) == EncodeNonEmpty(cs, true);
      }
      UnitRoundTrip(cs);
      EncodeCheckedRoundTrip(cs[st.consumed..]);
      DecodeConcat(st.out, EncodeChecked(cs[st.consumed..]));
    }
  }

  /** On valid UTF-16 the trail test as written and the RFC 2781 test agree,
      and nothing is replaced. */
  lemma {:induction false} WellFormedAgrees(cs: seq<char16>)
    requires WellFormed(cs)
    ensures Encode(cs) == EncodeChecked(cs)
    ensures Sanitize(cs) == cs
    decreases |cs|
  {
    if cs != [] {
      assert EncodeWith(cs, false) == EncodeNonEmpty(cs, false);
      assert EncodeWith(cs, true) == EncodeNonEmpty(cs, true);
      if 0xD800 <= cs[0] < 0xDC00 {
        SurrogateHalves(cs[0]);
        SurrogateHalves(cs[1]);
        WellFormedAgrees(cs[2..]);
        assert cs[..2] + cs[2..] == cs;
      } else {
        WellFormedAgrees(cs[1..]);
        assert [cs[0]] + cs[1..] == cs;
      }
    }
  }

  /** Encoding valid UTF-16 and decoding the bytes gives the same chars. */
  lemma EncodeRoundTrip(cs: seq<char16>)
    requires WellFormed(cs)
    ensures Decode(Encode(cs)) == cs
  {
    WellFormedAgrees(cs);
    EncodeCheckedRoundTrip(cs);
  }

  // ---------------------------------------------------------------------
  // Well-formed UTF-8 (the UTF8-char syntax of RFC 3629 section 4)

  /** The length of the sequence a lead byte starts in well-formed UTF-8,
      0 for a byte that cannot start one (0x80..0xC1, 0xF5..0xFF). */
  function SequenceLength(b0: byte): (n: nat)
    ensures n <= 4
  {
    if b0 < 0x80 then 1
    else if 0xC2 <= b0 <= 0xDF then 2
    else if 0xE0 <= b0 <= 0xEF then 3
    else if 0xF0 <= b0 <= 0xF4 then 4
    else 0
  }

  /** One `UTF8-char`: shortest form, no surrogate code point, nothing above U+10FFFF. */
  predicate WellFormedSequence(u: seq<byte>)
  {
    |u| > 0 && |u| == SequenceLength(u[0]) &&
    (forall i :: 1 <= i < |u| ==> IsContinuation(u[i])) &&
    (u[0] == 0xE0 ==> 0xA0 <= u[1]) &&
    (u[0] == 0xED ==> u[1] <= 0x9F) &&
    (u[0] == 0xF0 ==> 0x90 <= u[1]) &&
    (u[0] == 0xF4 ==> u[1] <= 0x8F)
  }

  /** `UTF8-octets`: a run of well-formed sequences. */
  predicate WellFormedUtf8(bs: seq<byte>)
    decreases |bs|
  {
    bs == [] ||
    (var n := SequenceLength(bs[0]);
     0 < n <= |bs| && WellFormedSequence(bs[..n]) && WellFormedUtf8(bs[n..]))
  }

  /** The code point a well-formed sequence spells. */
  function SequenceValue(u: seq<byte>): nat
    requires WellFormedSequence(u)
  {
    if |u| == 1 then u[0] as nat
    else if |u| == 2 then (u[0] as int - 0xC0) * 0x40 + (u[1] as int - 0x80)
    else if |u| == 3 then
      ((u[0] as int - 0xE0) * 0x40 + (u[1] as int - 0x80)) * 0x40 + (u[2] as int - 0x80)
    else
      (((u[0] as int - 0xF0) * 0x40 + (u[1] as int - 0x80)) * 0x40 + (u[2] as int - 0x80)) * 0x40
        + (u[3] as int - 0x80)
  }

  /** The UTF-16 chars of a well-formed sequence's code point. */
  function SequenceChars(u: seq<byte>): seq<char16>
    requires WellFormedSequence(u)
  {
    var cp := SequenceValue(u);
    if |u| < 4 then [cp as char16] else [HighSurrogate(cp), LowSurrogate(cp)]
  }

  /** Each length of sequence spells a code point of the range that needs
      exactly that length, and never a surrogate (RFC 3629 section 3). */
  lemma SequenceRange(u: seq<byte>)
    requires WellFormedSequence(u)
    ensures var cp := SequenceValue(u);
      && (|u| == 1 ==> cp < 0x80)
      && (|u| == 2 ==> 0x80 <= cp < 0x800)
      && (|u| == 3 ==> 0x800 <= cp < 0x1_0000 && !(0xD800 <= cp <= 0xDFFF))
      && (|u| == 4 ==> 0x1_0000 <= cp <= 0x10_FFFF)
  {
  }

  /** The encoder's bytes for the code point of a well-formed sequence are
      that sequence again. */
  lemma SequenceBytes(u: seq<byte>)
    requires WellFormedSequence(u)
    ensures var cp := SequenceValue(u);
      && (|u| == 2 ==> cp < 0x800 && TwoBytes(cp as char16) == u)
      && (|u| == 3 ==> 0x800 <= cp < 0x1_0000 && ThreeBytes(cp as char16) == u)
      && (|u| == 4 ==> cp < 0x20_0000 && FourBytes(cp) == u)
  {
    var cp := SequenceValue(u);
    SequenceRange(u);
    if |u| == 2 {
      DivUnique(cp, 0x40, u[0] as int - 0xC0, u[1] as int - 0x80);
    } else if |u| == 3 {
      var a, b, c := u[0] as int - 0xE0, u[1] as int - 0x80, u[2] as int - 0x80;
      DivUnique(cp, 0x1000, a, b * 0x40 + c);
      DivUnique(cp, 0x40, a * 0x40 + b, c);
      DivUnique(cp / 0x40, 0x40, a, b);
    } else if |u| == 4 {
      var a, b, c, d := u[0] as int - 0xF0, u[1] as int - 0x80, u[2] as int - 0x80, u[3] as int - 0x80;
      DivUnique(cp, 0x4_0000, a, (b * 0x40 + c) * 0x40 + d);
      DivUnique(cp, 0x1000, a * 0x40 + b, c * 0x40 + d);
      DivUnique(cp / 0x1000, 0x40, a, b);
      DivUnique(cp, 0x40, (a * 0x40 + b) * 0x40 + c, d);
      DivUnique(cp / 0x40, 0x40, a * 0x40 + b, c);
    }
  }

  /** A well-formed sequence is one decoder iteration that writes its chars,
      and those chars are one encoder iteration that writes the sequence back,
      whatever follows them. */
  lemma SequenceRoundTrip(u: seq<byte>, rest: seq<char16>)
    requires WellFormedSequence(u)
    ensures DecodeFirst(u) == DecodeStep(SequenceChars(u), |u|)
    ensures EncodeFirst(SequenceChars(u) + rest, false) == EncodeStep(u, |SequenceChars(u)|)
  {
    var cp := SequenceValue(u);
    var cs := SequenceChars(u) + rest;
    SequenceRange(u);
    SequenceBytes(u);
    if |u| == 2 {
      TwoBytesDecode(cp as char16);
    } else if |u| == 3 {
      ThreeBytesDecode(cp as char16);
    } else if |u| == 4 {
      FourBytesDecode(cp);
      PairRoundTrip(cp);
      SurrogateHalves(cs[0]);
      SurrogateHalves(cs[1]);
    }
  }

  /** The decoding of well-formed UTF-8 is valid UTF-16, and encoding it
      gives back the same bytes. */
  lemma {:induction false} DecodeRoundTrip(bs: seq<byte>)
    requires WellFormedUtf8(bs)
    ensures WellFormed(Decode(bs))
    ensures Encode(Decode(bs)) == bs
    decreases |bs|
  {
    if bs != [] {
      var n := SequenceLength(bs[0]);
      var u, rest := bs[..n], bs[n..];
      var chars := SequenceChars(u);
      assert bs == u + rest;
      SequenceRoundTrip(u, Decode(rest));
      DecodeConcat(u, rest);
      DecodeRoundTrip(rest);
      var cs := chars + Decode(rest);
      assert Decode(bs) == cs;
      assert cs[|chars|..] == Decode(rest);
      assert Encode(cs) == u + Encode(Decode(rest)) by {
        assert EncodeWith(cs, false) == EncodeNonEmpty(cs, false);
      }
      SequenceRange(u);
      if n == 4 {
        PairRoundTrip(SequenceValue(u));
        assert cs[2..] == Decode(rest);
      } else {
        assert cs[1..] == Decode(rest);
      }
    }
  }

  /** As written, a lead surrogate followed by U+0400 (bit 10 set, not a low
      surrogate) is taken for a pair: the two chars come back as one U+2800,
      where the RFC 2781 test writes '?' and keeps U+0400. */
  lemma TrailTestCounterexample()
    ensures Encode([0xD800, 0x0400]) == [0xF0, 0x82, 0xA0, 0x80]
    ensures Decode(Encode([0xD800, 0x0400])) == [0x2800]
    ensures Sanitize([0xD800, 0x0400]) == [0x3F, 0x0400]
    ensures Decode(EncodeChecked([0xD800, 0x0400])) == [0x3F, 0x0400]
  {
    var cs: seq<char16> := [0xD800, 0x0400];
    assert EncodeFirst(cs, false).out == [0xF0, 0x82, 0xA0, 0x80];
    assert cs[2..] == [];
    var u: seq<byte> := [0xF0, 0x82, 0xA0, 0x80];
    assert u[1..4] == [0x82, 0xA0, 0x80];
    assert DecodeFirst(u) == DecodeStep([0x2800], 4) by {
      var t := u[1..4];
      FirstNonContinuationAt(t, 3);
      assert t[..2] == [0x82, 0xA0];
      assert t[..2][..1] == [0x82];
      assert t[..2][..1][..0] == [];
      assert TrailCount(u[0]) == 3 && LeadBits(u[0], 3) == 0;
      assert Payload(t[..2][..1], 0) == 2;
      assert Payload(t[..2], 0) == 0xA0;
      assert Payload(t, 0) == 0x2800;
    }
    assert u[4..] == [];
    assert cs[1..] == [0x0400];
    EncodeCheckedRoundTrip(cs);
  }

  // ---------------------------------------------------------------------
  // The decoder and encoder loops

  /** The decoder's inner loop: shifts in up to `k` continuation bytes from
      `d[from..]` and stops at the first byte that is not one. */
  method ShiftInTrail(d: array<byte>, from: int, k: nat, lead: nat) returns (j: nat, val: nat)
    requires 0 <= from && from + k <= d.Length
    ensures j == FirstNonContinuation(d[from..from + k])
    ensures j == k ==> val == Payload(d[from..from + k], lead)
  {
    ghost var trail := d[from..from + k];
    val := lead;
    j := 0;
    while j < k
      invariant 0 <= j <= k
      invariant forall m :: 0 <= m < j ==> IsContinuation(trail[m])
      invariant val == Payload(trail[..j], lead)
    {
      var b := d[from + j];
      assert b == trail[j];
      if !IsContinuation(b) {
        FirstNonContinuationAt(trail, j);
        return;
      }
      assert trail[..j + 1][..j] == trail[..j];
      val := val * 0x40 + b as int % 0x40;
      j := j + 1;
    }
    FirstNonContinuationAt(trail, k);
    assert trail[..k] == trail;
  }

  /** One pass of the decoder's outer loop from `d[idx]`: the chars it
      writes and the index of the next byte to read. */
  method DecodeUnit(d: array<byte>, idx: int, last: int) returns (out: seq<char16>, next: int)
    requires 0 <= idx < last <= d.Length
    ensures idx < next <= last
    ensures DecodeFirst(d[idx..last]) == DecodeStep(out, next - idx)
  {
    ghost var rest := d[idx..last];
    var b0 := d[idx];
    var i := idx + 1;
    if b0 < 0x80 {
      return [b0 as int as char16], i;
    } else if 0xC0 <= b0 <= 0xFD {
      var k := 1;
      if 0xE0 <= b0 <= 0xEF {
        k := 2;
      } else if 0xF0 <= b0 <= 0xF7 {
        k := 3;
      } else if 0xF8 <= b0 <= 0xFB {
        k := 4;
      } else if 0xFC <= b0 <= 0xFD {
        k := 5;
      }
      assert k == TrailCount(b0);
      if i + k > last {
        // truncated: the source writes U+FFFD and leaves the loop
        return [REPLACEMENT_CHAR], last;
      }
      ghost var trail := d[i..i + k];
      assert rest[1..1 + k] == trail by {
        assert forall m :: 0 <= m < k ==> trail[m] == d[i + m] == rest[1 + m];
      }
      var j, val := ShiftInTrail(d, i, k, LeadBits(b0, k));
      if j < k {
        // the offending byte is read again as a lead
        return [REPLACEMENT_CHAR], i + j;
      }
      return ScalarChars(val, k), i + k;
    } else {
      return [REPLACEMENT_CHAR], i;
    }
  }

  /** `DecodeUnit` seen from the whole remaining input: the pass writes a
      prefix of what decoding the rest produces. */
  method DecodeOne(d: array<byte>, idx: int, last: int) returns (out: seq<char16>, next: int)
    requires 0 <= idx < last <= d.Length
    ensures idx < next <= last && 1 <= |out| <= 2
    ensures Decode(d[idx..last]) == out + Decode(d[next..last])
    ensures next < last ==> EndsInPair(d[idx..last]) == EndsInPair(d[next..last])
    ensures next == last ==> EndsInPair(d[idx..last]) == (|out| == 2)
  {
    ghost var rest := d[idx..last];
    out, next := DecodeUnit(d, idx, last);
    DecodeAdvance(rest, out, next - idx);
    assert rest[next - idx..] == d[next..last];
  }

  /** `v[t++] = c` within the window `[s, limit)`. */
  method Put<T>(v: array<T>, t: int, c: T, ghost s: int, ghost limit: int)
    requires 0 <= s <= t < limit <= v.Length
    modifies v
    ensures v[s..t + 1] == old(v[s..t]) + [c]
    ensures v[..s] == old(v[..s]) && v[limit..] == old(v[limit..])
  {
    v[t] := c;
  }

  /** Writes the chars of one decoder pass at `v[t]`; for a pair it gives up
      (-1) unless a char of room remains after the low surrogate. */
  method Emit(v: array<char16>, t: int, out: seq<char16>, ghost s: int, limit: int) returns (t2: int)
    requires 0 <= s <= t < limit <= v.Length && 1 <= |out| <= 2
    modifies v
    ensures t2 == -1 <==> |out| == 2 && t + 2 >= limit
    ensures t2 != -1 ==> t2 == t + |out| && v[s..t2] == old(v[s..t]) + out
    ensures v[..s] == old(v[..s]) && v[limit..] == old(v[limit..])
  {
    Put(v, t, out[0], s, limit);
    t2 := t + 1;
    if |out| == 2 {
      if t2 >= limit - 1 {
        return -1;
      }
      Put(v, t2, out[1], s, limit);
      t2 := t2 + 1;
      assert out == [out[0]] + [out[1]];
    } else {
      assert out == [out[0]];
    }
  }

  /** Decoding proceeds one pass at a time. */
  lemma DecodeAdvance(bs: seq<byte>, out: seq<char16>, n: nat)
    requires |bs| > 0 && DecodeFirst(bs) == DecodeStep(out, n)
    ensures Decode(bs) == out + Decode(bs[n..])
    ensures n < |bs| ==> EndsInPair(bs) == EndsInPair(bs[n..])
    ensures n == |bs| ==> EndsInPair(bs) == (|out| == 2)
  {
  }

  /**
   * `utf8Decoder(d, offset, byteCount, v, s, len)`: decodes
   * `d[offset..offset+byteCount]` into `v` from index `s`, writing nowhere
   * at or past `s + len`. Returns the index after the last char, or -1 when
   * the output does not fit (or fits only with no room left after a pair).
   */
  method Decoder(d: array<byte>, offset: int, byteCount: int, v: array<char16>, s: int, len: int)
      returns (r: Result<int>)
    requires 0 <= offset && 0 <= byteCount && offset + byteCount <= d.Length
    requires 0 <= s && 0 <= len && s + len <= v.Length
    modifies v
    ensures r.Err? <==> v.Length + s < byteCount
    ensures r.Err? ==> r.error == AssertionFailed
    ensures var bs := d[offset..offset + byteCount]; var out := Decode(bs);
      r.Ok? ==>
        (r.value == -1 <==> |out| > len || (|out| == len && EndsInPair(bs))) &&
        (r.value != -1 ==> r.value == s + |out| && v[s..r.value] == out)
    ensures v[..s] == old(v[..s]) && v[s + len..] == old(v[s + len..])
  {
    if v.Length + s < byteCount {
      return Err(AssertionFailed);
    }
    ghost var bs := d[offset..offset + byteCount];
    var idx := offset;
    var last := offset + byteCount;
    var limit := s + len;
    var t := s;
    ghost var lastPair := false;
    while idx < last
      invariant offset <= idx <= last
      invariant s <= t <= limit
      invariant v[s..t] + Decode(d[idx..last]) == Decode(bs)
      invariant idx < last ==> EndsInPair(d[idx..last]) == EndsInPair(bs)
      invariant idx == last ==> lastPair == EndsInPair(bs)
      invariant lastPair ==> t < limit
      invariant v[..s] == old(v[..s]) && v[limit..] == old(v[limit..])
      decreases last - idx
    {
      ghost var before := v[s..t];
      if t >= limit {
        return Ok(-1);
      }
      var out, next := DecodeOne(d, idx, last);
      var t2 := Emit(v, t, out, s, limit);
      if t2 == -1 {
        return Ok(-1);
      }
      t := t2;
      ConcatAssociates(before, out, Decode(d[next..last]));
      lastPair := |out| == 2;
      idx := next;
    }
    return Ok(t);
  }

  /** One pass of the encoder's loop from `cs[i]`: the bytes it writes and
      the index of the next char to read. */
  method EncodeOne(cs: seq<char16>, i: int) returns (out: seq<byte>, next: int)
    requires 0 <= i < |cs|
    ensures i < next <= |cs| && 1 <= |out| <= 4
    ensures Encode(cs[i..]) == out + Encode(cs[next..])
    ensures next < |cs| ==>
      EndsMultiByte(cs[i..]) == EndsMultiByte(cs[next..]) && |Encode(cs[next..])| >= 1
    ensures next == |cs| ==> EndsMultiByte(cs[i..]) == (|out| > 1)
  {
    ghost var rest := cs[i..];
    var ch := cs[i];
    if ch < 0x80 {
      out, next := [ch as int as byte], i + 1;
    } else if ch < 0x800 {
      out, next := TwoBytes(ch), i + 1;
    } else if IsSurrogate(ch) {
      var high := ch;
      var low: char16 := if i + 1 != |cs| then cs[i + 1] else 0;
      assert low == (if 1 != |rest| then rest[1] else 0);
      if !IsSurrogateLead(high) || !IsSurrogateTrail(low) {
        out, next := [QUESTION_MARK], i + 1;
      } else {
        var cp := GetSupplementary(high, low);
        out, next := FourBytes(cp), i + 2;
      }
    } else {
      out, next := ThreeBytes(ch), i + 1;
    }
    assert EncodeFirst(rest, false) == EncodeStep(out, next - i);
    EncodeAdvance(rest, out, next - i);
    assert rest[next - i..] == cs[next..];
  }

  /** Writes `xs` at `v[t..]` within the window `[s, limit)`. */
  method PutAll<T>(v: array<T>, t: int, xs: seq<T>, ghost s: int, ghost limit: int)
    requires 0 <= s <= t && t + |xs| <= limit <= v.Length
    modifies v
    ensures v[s..t + |xs|] == old(v[s..t]) + xs
    ensures v[..s] == old(v[..s]) && v[limit..] == old(v[limit..])
  {
    var k := 0;
    while k < |xs|
      invariant 0 <= k <= |xs|
      invariant v[s..t + k] == old(v[s..t]) + xs[..k]
      invariant v[..s] == old(v[..s]) && v[limit..] == old(v[limit..])
    {
      Put(v, t + k, xs[k], s, limit);
      assert xs[..k + 1] == xs[..k] + [xs[k]];
      k := k + 1;
    }
    assert xs[..k] == xs;
  }

  /** Encoding proceeds one pass at a time. */
  lemma EncodeAdvance(cs: seq<char16>, out: seq<byte>, n: nat)
    requires |cs| > 0 && EncodeFirst(cs, false) == EncodeStep(out, n)
    ensures Encode(cs) == out + Encode(cs[n..])
    ensures n < |cs| ==> EndsMultiByte(cs) == EndsMultiByte(cs[n..]) && |Encode(cs[n..])| >= 1
    ensures n == |cs| ==> EndsMultiByte(cs) == (|out| > 1)
  {
    assert EncodeWith(cs, false) == EncodeNonEmpty(cs, false);
    assert EndsMultiByte(cs) == EndsMultiByteNonEmpty(cs);
    if n < |cs| {
      assert EncodeWith(cs[n..], false) == EncodeNonEmpty(cs[n..], false);
    }
  }

  /** When the encoder refuses a unit for want of room, the whole encoding
      is longer than the room, or exactly as long and ending in a multi-byte
      unit. */
  lemma EncodeRefused(cs: seq<char16>, tail: seq<char16>, rest: seq<char16>,
                      done: seq<byte>, unit: seq<byte>, room: int)
    requires |tail| > 0 && 1 <= |unit|
    requires done + Encode(tail) == Encode(cs)
    requires Encode(tail) == unit + Encode(rest)
    requires EndsMultiByte(tail) == EndsMultiByte(cs)
    requires |rest| > 0 ==> |Encode(rest)| >= 1
    requires |rest| == 0 ==> EndsMultiByte(tail) == (|unit| > 1)
    requires if |unit| == 1 then |done| >= room else |done| >= room - |unit|
    ensures |Encode(cs)| > room || (|Encode(cs)| == room && EndsMultiByte(cs))
  {
    assert |Encode(cs)| == |done| + |unit| + |Encode(rest)|;
  }

  /** One turn of the encoder's loop at `cs[i]` with the bytes so far in
      `out[s..t]`: the room checks, then the unit written at `out[t..]`. */
  method EncodeTurn(cs: seq<char16>, i: int, out: array<byte>, s: int, t: int, limit: int)
      returns (refused: bool, next: int, t': int)
    requires 0 <= i < |cs| && 0 <= s <= t <= limit <= out.Length
    requires out[s..t] + Encode(cs[i..]) == Encode(cs)
    requires EndsMultiByte(cs[i..]) == EndsMultiByte(cs)
    modifies out
    ensures refused ==>
      |Encode(cs)| > limit - s || (|Encode(cs)| == limit - s && EndsMultiByte(cs))
    ensures !refused ==> (i < next <= |cs| && t < t' <= limit &&
      out[s..t'] + Encode(cs[next..]) == Encode(cs) &&
      (next < |cs| ==> EndsMultiByte(cs[next..]) == EndsMultiByte(cs)) &&
      (next == |cs| && EndsMultiByte(cs) ==> t' < limit))
    ensures out[..s] == old(out[..s]) && out[limit..] == old(out[limit..])
  {
    ghost var before := out[s..t];
    var unit;
    unit, next := EncodeOne(cs, i);
    if |unit| == 1 {
      if t >= limit {
        EncodeRefused(cs, cs[i..], cs[next..], before, unit, limit - s);
        return true, next, t;
      }
    } else if t >= limit - |unit| {
      EncodeRefused(cs, cs[i..], cs[next..], before, unit, limit - s);
      return true, next, t;
    }
    PutAll(out, t, unit, s, limit);
    t' := t + |unit|;
    ConcatAssociates(before, unit, Encode(cs[next..]));
    refused := false;
  }

  /**
   * `utf8Encoder(chars, offset, length, out, s, len)`: encodes
   * `chars[offset..offset+length]` into `out` from index `s`. A one-byte
   * sequence may take the last free byte; a longer one needs at least one
   * byte to spare after it, or the result is -1.
   */
  method Encoder(chars: array<char16>, offset: int, length: int, out: array<byte>, s: int, len: int)
      returns (r: Result<int>)
    requires 0 <= offset && 0 <= length && offset + length <= chars.Length
    requires 0 <= s && 0 <= len
    modifies out
    ensures r.Err? <==> s + len > out.Length
    ensures r.Err? ==> r.error == AssertionFailed && out[..] == old(out[..])
    ensures var cs := chars[offset..offset + length]; var bytes := Encode(cs);
      r.Ok? ==>
        (r.value == -1 <==> |bytes| > len || (|bytes| == len && EndsMultiByte(cs))) &&
        (r.value != -1 ==> r.value == s + |bytes| && out[s..r.value] == bytes)
    ensures r.Ok? ==> out[..s] == old(out[..s]) && out[s + len..] == old(out[s + len..])
  {
    var limit := s + len;
    if limit > out.Length {
      return Err(AssertionFailed);
    }
    var cs := chars[offset..offset + length];
    var i := 0;
    var t := s;
    while i < |cs|
      invariant 0 <= i <= |cs|
      invariant s <= t <= limit
      invariant out[s..t] + Encode(cs[i..]) == Encode(cs)
      invariant i < |cs| ==> EndsMultiByte(cs[i..]) == EndsMultiByte(cs)
      invariant i == |cs| && EndsMultiByte(cs) ==> t < limit
      invariant out[..s] == old(out[..s]) && out[limit..] == old(out[limit..])
      decreases |cs| - i
    {
      var refused, next, t' := EncodeTurn(cs, i, out, s, t, limit);
      if refused {
        return Ok(-1);
      }
      i, t := next, t';
    }
    assert cs[|cs|..] == [];
    return Ok(t);
  }
}
