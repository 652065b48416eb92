/** The hand-rolled base64url of the entitlement token (packages/entitlement/src/server.ts and
    client.ts): the platform's base64 with two characters replaced and the padding dropped, as
    in section 5 of RFC 4648. */
module Base64Url {
  import opened Options
  import opened Utf8

  type Sextet = v: int | 0 <= v < 64

  // ---------------------------------------------------------------------
  // The platform's base64
  // ---------------------------------------------------------------------

  function Digit(v: Sextet): char {
    if v < 26 then 'A' + v as char
    else if v < 52 then 'a' + (v - 26) as char
    else if v < 62 then '0' + (v - 52) as char
    else if v == 62 then '+'
    else '/'
  }

  /** The decoder knows both alphabets. */
  function Value(c: char): Option<Sextet> {
    if 'A' <= c <= 'Z' then Some((c - 'A') as int)
    else if 'a' <= c <= 'z' then Some((c - 'a') as int + 26)
    else if '0' <= c <= '9' then Some((c - '0') as int + 52)
    else if c == '+' || c == '-' then Some(62)
    else if c == '/' || c == '_' then Some(63)
    else None
  }

  function Digits(vs: seq<Sextet>): (r: string)
    ensures |r| == |vs|
  {
    seq(|vs|, i requires 0 <= i < |vs| => Digit(vs[i]))
  }

  function Pad(n: nat): (r: string)
    ensures |r| == n
  {
    seq(n, _ => '=')
  }

  /** Six bits at a time, the last of them filled with zeros. */
  function ToSextets(bs: seq<Byte>): seq<Sextet> {
    if bs == [] then []
    else if |bs| == 1 then [bs[0] / 4, bs[0] % 4 * 16]
    else if |bs| == 2 then [bs[0] / 4, bs[0] % 4 * 16 + bs[1] / 16, bs[1] % 16 * 4]
    else [bs[0] / 4, bs[0] % 4 * 16 + bs[1] / 16, bs[1] % 16 * 4 + bs[2] / 64, bs[2] % 64] + ToSextets(bs[3..])
  }

  function FirstByte(a: int, b: int): int { a * 4 + b / 16 }

  function SecondByte(b: int, c: int): int { b % 16 * 16 + c / 4 }

  function ThirdByte(c: int, d: int): int { c % 4 * 64 + d }

  function FromSextets(vs: seq<Sextet>): seq<Byte> {
    if |vs| < 2 then []
    else if |vs| == 2 then [FirstByte(vs[0], vs[1])]
    else if |vs| == 3 then [FirstByte(vs[0], vs[1]), SecondByte(vs[1], vs[2])]
    else [FirstByte(vs[0], vs[1]), SecondByte(vs[1], vs[2]), ThirdByte(vs[2], vs[3])] + FromSextets(vs[4..])
  }

  /** `buf.toString("base64")` */
  function ToBase64(bs: seq<Byte>): string {
    Digits(ToSextets(bs)) + Pad((3 - |bs| % 3) % 3)
  }

  /** The digits a decoder takes: it stops at padding and skips what it does not know. */
  function Taken(s: string): seq<Sextet> {
    if s == "" || s[0] == '=' then []
    else if Value(s[0]).Some? then [Value(s[0]).value] + Taken(s[1..])
    else Taken(s[1..])
  }

  /** `Buffer.from(s, "base64")` */
  function FromBase64(s: string): seq<Byte> {
    FromSextets(Taken(s))
  }

  // ---------------------------------------------------------------------
  // The url form
  // ---------------------------------------------------------------------

  function Replace(s: string, from: char, to: char): (r: string)
    ensures |r| == |s|
  {
    seq(|s|, i requires 0 <= i < |s| => if s[i] == from then to else s[i])
  }

  /** `replace(/=+$/g, "")` */
  function Strip(s: string): string {
    if s != "" && s[|s| - 1] == '=' then Strip(s[..|s| - 1]) else s
  }

  function UrlEncode(bs: seq<Byte>): string {
    Strip(Replace(Replace(ToBase64(bs), '+', '-'), '/', '_'))
  }

  /** `"==".slice(0, (4 - (length % 4)) % 4)` */
  function Padding(length: nat): string {
    var n := (4 - length % 4) % 4;
    Pad(if n > 2 then 2 else n)
  }

  function UrlDecode(s: string): seq<Byte> {
    FromBase64(Replace(Replace(s, '-', '+'), '_', '/') + Padding(|s|))
  }

  // ---------------------------------------------------------------------
  // Round trip
  // ---------------------------------------------------------------------

  lemma {:induction false} FromToSextets(bs: seq<Byte>)
    ensures FromSextets(ToSextets(bs)) == bs
  {
    if |bs| >= 3 {
      BytesBack(bs[0], bs[1], bs[2]);
      FromToSextets(bs[3..]);
      assert ToSextets(bs)[4..] == ToSextets(bs[3..]);
      assert bs == [bs[0], bs[1], bs[2]] + bs[3..];
    } else if bs != [] {
      BytesBack(bs[0], if |bs| == 2 then bs[1] else 0, 0);
    }
  }

  /** Three bytes from four sextets. */
  lemma BytesBack(a: Byte, b: Byte, c: Byte)
    ensures FirstByte(a / 4, a % 4 * 16 + b / 16) == a
    ensures SecondByte(a % 4 * 16 + b / 16, b % 16 * 4 + c / 64) == b
    ensures ThirdByte(b % 16 * 4 + c / 64, c % 64) == c
  {
  }

  lemma {:induction false} SextetCount(bs: seq<Byte>)
    ensures |ToSextets(bs)| == |bs| / 3 * 4 + (if |bs| % 3 == 0 then 0 else |bs| % 3 + 1)
  {
    if |bs| >= 3 { SextetCount(bs[3..]); }
  }

  lemma {:induction false} TakenDigits(vs: seq<Sextet>, n: nat)
    ensures Taken(Digits(vs) + Pad(n)) == vs
  {
    if vs != [] {
      TakenDigits(vs[1..], n);
      assert (Digits(vs) + Pad(n))[1..] == Digits(vs[1..]) + Pad(n);
      assert vs == [vs[0]] + vs[1..];
    } else {
      assert Digits(vs) + Pad(n) == Pad(n);
    }
  }

  function UrlDigit(v: Sextet): char {
    if v == 62 then '-' else if v == 63 then '_' else Digit(v)
  }

  function UrlDigits(vs: seq<Sextet>): (r: string)
    ensures |r| == |vs|
  {
    seq(|vs|, i requires 0 <= i < |vs| => UrlDigit(vs[i]))
  }

  lemma {:induction false} StripPad(s: string, n: nat)
    requires s == "" || s[|s| - 1] != '='
    ensures Strip(s + Pad(n)) == s
  {
    if n == 0 {
      assert s + Pad(0) == s;
    } else {
      assert (s + Pad(n))[..|s| + n - 1] == s + Pad(n - 1);
      StripPad(s, n - 1);
    }
  }

  /** The encoding is the url digits of the sextets and nothing else. */
  lemma UrlEncodeIsDigits(bs: seq<Byte>)
    ensures UrlEncode(bs) == UrlDigits(ToSextets(bs))
  {
    var vs, n := ToSextets(bs), (3 - |bs| % 3) % 3;
    var replaced := Replace(Replace(ToBase64(bs), '+', '-'), '/', '_');
    assert replaced == UrlDigits(vs) + Pad(n);
    StripPad(UrlDigits(vs), n);
  }

  /** Back from the url alphabet. */
  lemma StandardDigits(vs: seq<Sextet>)
    ensures Replace(Replace(UrlDigits(vs), '-', '+'), '_', '/') == Digits(vs)
  {
    var s, t := UrlDigits(vs), Digits(vs);
    var r := Replace(Replace(s, '-', '+'), '_', '/');
    forall i | 0 <= i < |vs| ensures r[i] == t[i] {
      assert s[i] == UrlDigit(vs[i]) && t[i] == Digit(vs[i]);
    }
  }

  /** The padding computed from the length is the padding that was dropped. */
  lemma PaddingIsRestored(bs: seq<Byte>)
    ensures Replace(Replace(UrlEncode(bs), '-', '+'), '_', '/') + Padding(|UrlEncode(bs)|) == ToBase64(bs)
    ensures |UrlEncode(bs)| % 4 != 1 && |ToBase64(bs)| % 4 == 0
  {
    UrlEncodeIsDigits(bs);
    StandardDigits(ToSextets(bs));
    SextetCount(bs);
    PaddingLength(|bs|);
  }

  lemma PaddingLength(n: nat)
    ensures var length := n / 3 * 4 + (if n % 3 == 0 then 0 else n % 3 + 1);
            && length % 4 != 1
            && |Padding(length)| == (3 - n % 3) % 3
            && (length + (3 - n % 3) % 3) % 4 == 0
  {
    var q, r := n / 3, n % 3;
    var length := 4 * q + (if r == 0 then 0 else r + 1);
    assert length / 4 == q && length % 4 == if r == 0 then 0 else r + 1;
  }

  /** Decoding inverts encoding, for every byte string. */
  lemma DecodeInvertsEncode(bs: seq<Byte>)
    ensures UrlDecode(UrlEncode(bs)) == bs
  {
    PaddingIsRestored(bs);
    TakenDigits(ToSextets(bs), (3 - |bs| % 3) % 3);
    FromToSextets(bs);
  }

  // ---------------------------------------------------------------------
  // The encoding, bit by bit
  // ---------------------------------------------------------------------

  /** The value of a bit at its place in a byte, the highest first. */
  function Weight(place: nat): (w: int)
    requires place < 8
    ensures w > 0
  {
    if place == 0 then 128 else if place == 1 then 64 else if place == 2 then 32 else if place == 3 then 16
    else if place == 4 then 8 else if place == 5 then 4 else if place == 6 then 2 else 1
  }

  /** Bit `j` of the bytes, highest bits first; beyond them there are zeros. */
  function Bit(bs: seq<Byte>, j: nat): int {
    if bs == [] then 0
    else if j < 8 then bs[0] / Weight(j) % 2
    else Bit(bs[1..], j - 8)
  }

  /** The number that six bits from `j` on make. */
  function SixBits(bs: seq<Byte>, j: nat): int {
    32 * Bit(bs, j) + 16 * Bit(bs, j + 1) + 8 * Bit(bs, j + 2) + 4 * Bit(bs, j + 3) + 2 * Bit(bs, j + 4) + Bit(bs, j + 5)
  }

  /** Table 2 of RFC 4648, by codes. */
  function UrlCode(v: int): int {
    if v < 26 then 65 + v else if v < 52 then 71 + v else if v < 62 then v - 4 else if v == 62 then 45 else 95
  }

  lemma Halves(b: Byte)
    ensures b == 2 * (b / 2) + b % 2 && b / 2 == 2 * (b / 4) + b / 2 % 2
    ensures b / 4 == 2 * (b / 8) + b / 4 % 2 && b / 8 == 2 * (b / 16) + b / 8 % 2
    ensures b / 16 == 2 * (b / 32) + b / 16 % 2 && b / 32 == 2 * (b / 64) + b / 32 % 2
    ensures b / 64 == 2 * (b / 128) + b / 64 % 2 && b / 128 == b / 128 % 2
  {
    assert b / 2 / 2 == b / 4;
    assert b / 4 / 2 == b / 8;
    assert b / 8 / 2 == b / 16;
    assert b / 16 / 2 == b / 32;
    assert b / 32 / 2 == b / 64;
    assert b / 64 / 2 == b / 128;
  }

  /** How a byte divides: its bits, weighted. */
  lemma UpperBits(b: Byte)
    ensures b / 64 == 2 * (b / 128 % 2) + b / 64 % 2
    ensures b / 16 == 8 * (b / 128 % 2) + 4 * (b / 64 % 2) + 2 * (b / 32 % 2) + b / 16 % 2
    ensures b / 4 == 32 * (b / 128 % 2) + 16 * (b / 64 % 2) + 8 * (b / 32 % 2) + 4 * (b / 16 % 2) + 2 * (b / 8 % 2) + b / 4 % 2
  {
    Halves(b);
  }

  lemma LowerBits(b: Byte)
    ensures b % 4 == 2 * (b / 2 % 2) + b % 2
    ensures b % 16 == 8 * (b / 8 % 2) + 4 * (b / 4 % 2) + 2 * (b / 2 % 2) + b % 2
    ensures b % 64 == 32 * (b / 32 % 2) + 16 * (b / 16 % 2) + 8 * (b / 8 % 2) + 4 * (b / 4 % 2) + 2 * (b / 2 % 2) + b % 2
  {
    Halves(b);
  }

  lemma BitsShift(bs: seq<Byte>, j: nat)
    requires |bs| >= 3
    ensures Bit(bs, j + 24) == Bit(bs[3..], j)
  {
    assert Bit(bs, j + 24) == Bit(bs[1..], j + 16) == Bit(bs[1..][1..], j + 8) == Bit(bs[1..][1..][1..], j);
    assert bs[1..][1..][1..] == bs[3..];
  }

  /** The byte at `i`, or zero beyond the end. */
  function ByteAt(bs: seq<Byte>, i: nat): Byte {
    if i < |bs| then bs[i] else 0
  }

  lemma {:induction false} BitAt(bs: seq<Byte>, i: nat, place: nat)
    requires place < 8
    ensures Bit(bs, 8 * i + place) == ByteAt(bs, i) / Weight(place) % 2
  {
    if bs == [] {
      assert 0 / Weight(place) == 0;
    } else if i > 0 {
      BitAt(bs[1..], i - 1, place);
    }
  }

  lemma FirstSextet(bs: seq<Byte>)
    ensures SixBits(bs, 0) == ByteAt(bs, 0) / 4
  {
    UpperBits(ByteAt(bs, 0));
    BitAt(bs, 0, 0); BitAt(bs, 0, 1); BitAt(bs, 0, 2); BitAt(bs, 0, 3); BitAt(bs, 0, 4); BitAt(bs, 0, 5);
  }

  lemma SecondSextet(bs: seq<Byte>)
    ensures SixBits(bs, 6) == ByteAt(bs, 0) % 4 * 16 + ByteAt(bs, 1) / 16
  {
    AcrossSecond(ByteAt(bs, 0), ByteAt(bs, 1));
    BitAt(bs, 0, 6); BitAt(bs, 0, 7); BitAt(bs, 1, 0); BitAt(bs, 1, 1); BitAt(bs, 1, 2); BitAt(bs, 1, 3);
  }

  lemma AcrossSecond(a: Byte, b: Byte)
    ensures a % 4 * 16 + b / 16 ==
            32 * (a / 2 % 2) + 16 * (a % 2) + 8 * (b / 128 % 2) + 4 * (b / 64 % 2) + 2 * (b / 32 % 2) + b / 16 % 2
  {
    LowerBits(a);
    UpperBits(b);
  }

  lemma ThirdSextet(bs: seq<Byte>)
    ensures SixBits(bs, 12) == ByteAt(bs, 1) % 16 * 4 + ByteAt(bs, 2) / 64
  {
    AcrossThird(ByteAt(bs, 1), ByteAt(bs, 2));
    BitAt(bs, 1, 4); BitAt(bs, 1, 5); BitAt(bs, 1, 6); BitAt(bs, 1, 7); BitAt(bs, 2, 0); BitAt(bs, 2, 1);
  }

  lemma AcrossThird(a: Byte, b: Byte)
    ensures a % 16 * 4 + b / 64 ==
            32 * (a / 8 % 2) + 16 * (a / 4 % 2) + 8 * (a / 2 % 2) + 4 * (a % 2) + 2 * (b / 128 % 2) + b / 64 % 2
  {
    LowerBits(a);
    UpperBits(b);
  }

  lemma FourthSextet(bs: seq<Byte>)
    ensures SixBits(bs, 18) == ByteAt(bs, 2) % 64
  {
    LowerBits(ByteAt(bs, 2));
    BitAt(bs, 2, 2); BitAt(bs, 2, 3); BitAt(bs, 2, 4); BitAt(bs, 2, 5); BitAt(bs, 2, 6); BitAt(bs, 2, 7);
  }

  lemma SixShift(bs: seq<Byte>, j: nat)
    requires |bs| >= 3
    ensures SixBits(bs, j + 24) == SixBits(bs[3..], j)
  {
    BitsShift(bs, j);
    BitsShift(bs, j + 1);
    BitsShift(bs, j + 2);
    BitsShift(bs, j + 3);
    BitsShift(bs, j + 4);
    BitsShift(bs, j + 5);
  }

  predicate RightSextet(bs: seq<Byte>, k: nat) {
    k < |ToSextets(bs)| && ToSextets(bs)[k] == SixBits(bs, 6 * k)
  }

  lemma LaterIsRight(bs: seq<Byte>, k: nat, here: nat, there: nat)
    requires 4 <= k < |ToSextets(bs)| && |bs| >= 3 && k - 4 < |ToSextets(bs[3..])|
    requires here == 6 * k && there == 6 * (k - 4) && ToSextets(bs)[k] == ToSextets(bs[3..])[k - 4]
    requires ToSextets(bs[3..])[k - 4] == SixBits(bs[3..], there)
    ensures ToSextets(bs)[k] == SixBits(bs, here)
  {
    SixShift(bs, there);
    assert here == there + 24;
  }

  /** Each sextet is the next six bits, filled with zeros at the end. */
  lemma {:induction false} SextetIsBits(bs: seq<Byte>, k: nat)
    requires k < |ToSextets(bs)|
    ensures RightSextet(bs, k)
    decreases k
  {
    if k < 4 {
      EarlySextet(bs, k);
    } else {
      LaterSextet(bs, k);
      SextetIsBits(bs[3..], k - 4);
      LaterIsRight(bs, k, 6 * k, 6 * (k - 4));
    }
  }

  lemma EarlySextet(bs: seq<Byte>, k: nat)
    requires k < 4 && k < |ToSextets(bs)|
    ensures ToSextets(bs)[k] == SixBits(bs, 6 * k)
  {
    FirstOfSextets(bs, k);
    if k == 0 {
      FirstSextet(bs);
    } else if k == 1 {
      SecondSextet(bs);
    } else if k == 2 {
      ThirdSextet(bs);
    } else {
      FourthSextet(bs);
    }
  }

  lemma LaterSextet(bs: seq<Byte>, k: nat)
    requires 4 <= k < |ToSextets(bs)|
    ensures |bs| >= 3 && k - 4 < |ToSextets(bs[3..])| && ToSextets(bs)[k] == ToSextets(bs[3..])[k - 4]
  {
    if |bs| < 3 {
      SextetCount(bs);
      assert false;
    }
    var rest := ToSextets(bs[3..]);
    assert |ToSextets(bs)| == 4 + |rest|;
  }

  lemma FirstOfSextets(bs: seq<Byte>, k: nat)
    requires k < 4 && k < |ToSextets(bs)|
    ensures ToSextets(bs)[k] ==
              if k == 0 then ByteAt(bs, 0) / 4
              else if k == 1 then ByteAt(bs, 0) % 4 * 16 + ByteAt(bs, 1) / 16
              else if k == 2 then ByteAt(bs, 1) % 16 * 4 + ByteAt(bs, 2) / 64
              else ByteAt(bs, 2) % 64
  {
  }

  /** The encoding is the one of section 5 of RFC 4648 without padding: a character for every six
      bits, the last of them filled with zeros. */
  lemma EncodesSixBits(bs: seq<Byte>)
    ensures |UrlEncode(bs)| == (8 * |bs| + 5) / 6
    ensures forall k :: 0 <= k < |UrlEncode(bs)| ==> UrlEncode(bs)[k] as int == UrlCode(SixBits(bs, 6 * k))
  {
    UrlEncodeIsDigits(bs);
    SextetCount(bs);
    forall k | 0 <= k < |UrlEncode(bs)| ensures UrlEncode(bs)[k] as int == UrlCode(SixBits(bs, 6 * k)) {
      SextetIsBits(bs, k);
      DigitCode(ToSextets(bs)[k]);
    }
  }

  lemma DigitCode(v: Sextet)
    ensures UrlDigit(v) as int == UrlCode(v)
  {
  }

  predicate UrlSafe(c: char) {
    'A' <= c <= 'Z' || 'a' <= c <= 'z' || '0' <= c <= '9' || c == '-' || c == '_'
  }

  /** The encoding needs no escaping: no dot, no padding, no separator. */
  lemma EncodeIsUrlSafe(bs: seq<Byte>)
    ensures forall c :: c in UrlEncode(bs) ==> UrlSafe(c)
  {
    UrlEncodeIsDigits(bs);
  }
}
