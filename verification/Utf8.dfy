/** UTF-8 as in section 3 of RFC 3629, with the replacement decoding of the platform: what
    `Buffer.from(text, "utf8")` and `toString("utf8")` compute. */
module Utf8 {

  type Scalar = c: int | 0 <= c < 0xD800 || 0xE000 <= c <= 0x10FFFF

  type Byte = b: int | 0 <= b < 256

  type CodeUnit = u: int | 0 <= u < 0x10000

  const REPLACEMENT: Scalar := 0xFFFD

  // ---------------------------------------------------------------------
  // Encoding
  // ---------------------------------------------------------------------

  /** The scalar values of a JavaScript string; `Buffer.from` replaces lone surrogates. */
  function FromUtf16(units: seq<CodeUnit>): seq<Scalar> {
    if units == [] then []
    else if 0xD800 <= units[0] < 0xDC00 && |units| > 1 && 0xDC00 <= units[1] < 0xE000 then
      [0x10000 + (units[0] - 0xD800) * 0x400 + (units[1] - 0xDC00)] + FromUtf16(units[2..])
    else if 0xD800 <= units[0] < 0xE000 then [REPLACEMENT] + FromUtf16(units[1..])
    else [units[0]] + FromUtf16(units[1..])
  }

  /** UTF-16: a character beyond the first plane becomes a high and a low surrogate. */
  function Utf16One(c: Scalar): seq<CodeUnit> {
    if c < 65536 then [c] else [55296 + (c - 65536) / 1024, 56320 + (c - 65536) % 1024]
  }

  predicate LowSurrogate(u: CodeUnit) {
    56320 <= u <= 57343
  }

  /** Reading a character gives it back; a surrogate that is not the high one of a pair is replaced.
      Every string begins in one of these two ways. */
  lemma Utf16Step(units: seq<CodeUnit>, c: Scalar, u: CodeUnit)
    ensures FromUtf16(Utf16One(c) + units) == [c] + FromUtf16(units)
    ensures 55296 <= u <= 57343 && !(u <= 56319 && units != [] && LowSurrogate(units[0])) ==>
              FromUtf16([u] + units) == [REPLACEMENT] + FromUtf16(units)
  {
    var s, t := Utf16One(c) + units, [u] + units;
    assert t[1..] == units;
    if c < 65536 {
      assert s[1..] == units;
    } else {
      assert s[2..] == units && s[0] == 55296 + (c - 65536) / 1024 && s[1] == 56320 + (c - 65536) % 1024;
    }
  }

  function ToUtf16(cs: seq<Scalar>): seq<CodeUnit> {
    if cs == [] then [] else Utf16One(cs[0]) + ToUtf16(cs[1..])
  }

  /** Reading inverts writing. */
  lemma {:induction false} Utf16RoundTrip(cs: seq<Scalar>)
    ensures FromUtf16(ToUtf16(cs)) == cs
  {
    if cs != [] {
      Utf16RoundTrip(cs[1..]);
      Utf16Step(ToUtf16(cs[1..]), cs[0], 0);
    }
  }

  function Tail(x: int): Byte {
    0x80 + x % 64
  }

  function EncodeOne(c: Scalar): (r: seq<Byte>)
    ensures 1 <= |r| <= 4
  {
    if c < 0x80 then [c]
    else if c < 0x800 then [0xC0 + c / 64, Tail(c)]
    else if c < 0x10000 then [0xE0 + c / 64 / 64, Tail(c / 64), Tail(c)]
    else [0xF0 + c / 64 / 64 / 64, Tail(c / 64 / 64), Tail(c / 64), Tail(c)]
  }

  function Encode(cs: seq<Scalar>): seq<Byte> {
    if cs == [] then [] else EncodeOne(cs[0]) + Encode(cs[1..])
  }

  // ---------------------------------------------------------------------
  // Decoding with replacement
  // ---------------------------------------------------------------------

  /** What a lead byte announces: how many continuation bytes, the range of the first of them,
      and the high bits. */
  datatype Lead = Ascii | Multi(needed: nat, lo: int, hi: int, high: int) | Bad

  function LeadOf(b: Byte): Lead {
    if b < 0x80 then Ascii
    else if 0xC2 <= b <= 0xDF then Multi(1, 0x80, 0xBF, b - 0xC0)
    else if b == 0xE0 then Multi(2, 0xA0, 0xBF, 0)
    else if b == 0xED then Multi(2, 0x80, 0x9F, 0xD)
    else if 0xE1 <= b <= 0xEF then Multi(2, 0x80, 0xBF, b - 0xE0)
    else if b == 0xF0 then Multi(3, 0x90, 0xBF, 0)
    else if b == 0xF4 then Multi(3, 0x80, 0x8F, 4)
    else if 0xF1 <= b <= 0xF3 then Multi(3, 0x80, 0xBF, b - 0xF0)
    else Bad
  }

  /** How many of the next `needed` bytes continue the sequence. */
  function Continues(bs: seq<Byte>, needed: nat, lo: int, hi: int): (k: nat)
    ensures k <= needed && k <= |bs|
    ensures forall i :: 0 < i < k ==> 0x80 <= bs[i] <= 0xBF
    ensures k > 0 ==> lo <= bs[0] <= hi
  {
    if needed == 0 || bs == [] || !(lo <= bs[0] <= hi) then 0
    else 1 + Continues(bs[1..], needed - 1, 0x80, 0xBF)
  }

  function Compose(high: int, bs: seq<Byte>): int
    decreases |bs|
  {
    if bs == [] then high else Compose(64 * high + bs[0] - 0x80, bs[1..])
  }

  lemma ComposeOne(high: int, a: Byte)
    ensures Compose(high, [a]) == 64 * high + a - 0x80
  {
  }

  lemma ComposeTwo(high: int, a: Byte, b: Byte)
    ensures Compose(high, [a, b]) == 64 * (64 * high + a - 0x80) + b - 0x80
  {
    assert [a, b][1..] == [b];
    ComposeOne(64 * high + a - 0x80, b);
  }

  lemma ComposeThree(high: int, a: Byte, b: Byte, c: Byte)
    ensures Compose(high, [a, b, c]) == 64 * (64 * (64 * high + a - 0x80) + b - 0x80) + c - 0x80
  {
    assert [a, b, c][1..] == [b, c];
    ComposeTwo(64 * high + a - 0x80, b, c);
  }

  /** A complete, well-formed sequence denotes a scalar value. */
  lemma ComposeIsScalar(b: Byte, bs: seq<Byte>)
    requires LeadOf(b).Multi? && |bs| == LeadOf(b).needed
    requires Continues(bs, LeadOf(b).needed, LeadOf(b).lo, LeadOf(b).hi) == LeadOf(b).needed
    ensures var c := Compose(LeadOf(b).high, bs); 0 <= c < 0xD800 || 0xE000 <= c <= 0x10FFFF
  {
    var l := LeadOf(b);
    if l.needed == 1 {
      assert bs == [bs[0]];
      ComposeOne(l.high, bs[0]);
    } else if l.needed == 2 {
      assert bs == [bs[0], bs[1]];
      ComposeTwo(l.high, bs[0], bs[1]);
    } else {
      assert bs == [bs[0], bs[1], bs[2]];
      ComposeThree(l.high, bs[0], bs[1], bs[2]);
    }
  }

  /** `toString("utf8")`: every maximal ill-formed or cut-off subpart becomes one U+FFFD. */
  function Decode(bs: seq<Byte>): seq<Scalar>
    decreases |bs|
  {
    if bs == [] then []
    else
      match LeadOf(bs[0])
      case Ascii => [bs[0]] + Decode(bs[1..])
      case Bad => [REPLACEMENT] + Decode(bs[1..])
      case Multi(needed, lo, hi, high) =>
        var k := Continues(bs[1..], needed, lo, hi);
        if k == needed then
          ContinuesPrefix(bs[1..], needed, lo, hi);
          ComposeIsScalar(bs[0], bs[1..][..needed]);
          [Compose(high, bs[1..][..needed])] + Decode(bs[1 + needed..])
        else [REPLACEMENT] + Decode(bs[1 + k..])
  }

  /** Only the bytes counted matter. */
  lemma {:induction false} ContinuesPrefix(bs: seq<Byte>, needed: nat, lo: int, hi: int)
    requires Continues(bs, needed, lo, hi) == needed
    ensures needed <= |bs| && Continues(bs[..needed], needed, lo, hi) == needed
  {
    if needed > 0 {
      assert bs[..needed][1..] == bs[1..][..needed - 1];
      ContinuesPrefix(bs[1..], needed - 1, 0x80, 0xBF);
    }
  }

  // ---------------------------------------------------------------------
  // Decoding inverts encoding, and what a cut leaves behind
  // ---------------------------------------------------------------------

  /** The lead byte of a scalar announces its length and admits its first continuation. */
  lemma LeadOfEncoded(c: Scalar)
    requires c >= 0x80
    ensures var e, l := EncodeOne(c), LeadOf(EncodeOne(c)[0]);
            && l.Multi? && |e| == l.needed + 1
            && l.lo <= e[1] <= l.hi
            && forall i :: 1 <= i < |e| ==> 0x80 <= e[i] <= 0xBF
  {
  }

  lemma {:induction false} AllContinue(bs: seq<Byte>, rest: seq<Byte>, needed: nat, lo: int, hi: int)
    requires |bs| <= needed
    requires forall i :: 0 < i < |bs| ==> 0x80 <= bs[i] <= 0xBF
    requires bs != [] ==> lo <= bs[0] <= hi
    requires |bs| == needed || rest == []
    ensures Continues(bs + rest, needed, lo, hi) == |bs|
  {
    if bs != [] {
      assert (bs + rest)[1..] == bs[1..] + rest;
      AllContinue(bs[1..], rest, needed - 1, 0x80, 0xBF);
    }
  }

  lemma ComposeEncoded(c: Scalar)
    requires c >= 0x80
    ensures Compose(LeadOf(EncodeOne(c)[0]).high, EncodeOne(c)[1..]) == c
  {
    var e := EncodeOne(c);
    var high := LeadOf(e[0]).high;
    if c < 0x800 {
      assert e[1..] == [Tail(c)];
      ComposeOne(high, Tail(c));
    } else if c < 0x10000 {
      assert e[1..] == [Tail(c / 64), Tail(c)];
      ComposeTwo(high, Tail(c / 64), Tail(c));
    } else {
      assert e[1..] == [Tail(c / 64 / 64), Tail(c / 64), Tail(c)];
      ComposeThree(high, Tail(c / 64 / 64), Tail(c / 64), Tail(c));
    }
  }

  lemma DecodeOne(c: Scalar, rest: seq<Byte>)
    ensures Decode(EncodeOne(c) + rest) == [c] + Decode(rest)
  {
    var e := EncodeOne(c);
    var bs := e + rest;
    if c < 0x80 {
      assert bs[1..] == rest;
    } else {
      LeadOfEncoded(c);
      ComposeEncoded(c);
      var l := LeadOf(e[0]);
      assert bs[1..] == e[1..] + rest;
      AllContinue(e[1..], rest, l.needed, l.lo, l.hi);
      assert bs[1..][..l.needed] == e[1..];
      assert bs[1 + l.needed..] == rest;
    }
  }

  /** A character cut off inside its encoding decodes to one replacement character. */
  lemma DecodeCut(c: Scalar, k: nat)
    requires 0 < k < |EncodeOne(c)|
    ensures Decode(EncodeOne(c)[..k]) == [REPLACEMENT]
  {
    var e := EncodeOne(c);
    LeadOfEncoded(c);
    var l := LeadOf(e[0]);
    var bs := e[..k];
    assert bs[1..] + [] == bs[1..];
    AllContinue(bs[1..], [], l.needed, l.lo, l.hi);
    assert bs[1 + (k - 1)..] == [];
  }

  /** Decoding whole characters followed by the first `k` bytes of another one. */
  lemma {:induction false} DecodeWithCut(cs: seq<Scalar>, tail: seq<Byte>)
    ensures Decode(Encode(cs) + tail) == cs + Decode(tail)
  {
    if cs == [] {
      assert Encode(cs) + tail == tail;
    } else {
      assert Encode(cs) + tail == EncodeOne(cs[0]) + (Encode(cs[1..]) + tail);
      DecodeOne(cs[0], Encode(cs[1..]) + tail);
      DecodeWithCut(cs[1..], tail);
      assert cs == [cs[0]] + cs[1..];
    }
  }

  /** Decoding inverts encoding. */
  lemma DecodeEncode(cs: seq<Scalar>)
    ensures Decode(Encode(cs)) == cs
  {
    DecodeWithCut(cs, []);
    assert Encode(cs) + [] == Encode(cs);
  }

  lemma {:induction false} EncodeConcat(a: seq<Scalar>, b: seq<Scalar>)
    ensures Encode(a + b) == Encode(a) + Encode(b)
  {
    if a == [] {
      assert a + b == b;
    } else {
      assert (a + b)[1..] == a[1..] + b;
      EncodeConcat(a[1..], b);
    }
  }

  lemma EncodeSingle(c: Scalar)
    ensures Encode([c]) == EncodeOne(c)
  {
    assert EncodeOne(c) + Encode([]) == EncodeOne(c);
  }

  lemma EncodeSnoc(a: seq<Scalar>, c: Scalar)
    ensures Encode(a + [c]) == Encode(a) + EncodeOne(c)
  {
    EncodeConcat(a, [c]);
    EncodeSingle(c);
  }
}
