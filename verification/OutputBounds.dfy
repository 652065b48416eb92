/** Bounding captured output to a number of UTF-8 bytes (packages/hunt/src/docker-runner.ts).
    The text is cut at a byte and decoded with replacement characters, which can make it
    longer again; a loop trims until it fits. */
module OutputBounds {
  import opened Sequences
  import opened Utf8

  // ---------------------------------------------------------------------
  // The longest whole prefix
  // ---------------------------------------------------------------------

  /** How many leading characters fit whole into `bound` bytes. */
  function Whole(cs: seq<Scalar>, bound: nat): (n: nat)
    ensures n <= |cs|
  {
    if cs == [] || |EncodeOne(cs[0])| > bound then 0
    else 1 + Whole(cs[1..], bound - |EncodeOne(cs[0])|)
  }

  /** `Whole` is the longest character prefix within the bound. */
  lemma {:induction false} WholeIsLongest(cs: seq<Scalar>, bound: nat, n: nat)
    requires n <= |cs|
    ensures |Encode(cs[..n])| <= bound <==> n <= Whole(cs, bound)
  {
    if n > 0 {
      assert cs[..n][0] == cs[0] && cs[..n][1..] == cs[1..][..n - 1];
      if |EncodeOne(cs[0])| <= bound {
        WholeIsLongest(cs[1..], bound - |EncodeOne(cs[0])|, n - 1);
      }
    }
  }

  lemma EncodeUpTo(cs: seq<Scalar>, n: nat)
    requires n < |cs|
    ensures Encode(cs[..n + 1]) == Encode(cs[..n]) + EncodeOne(cs[n])
  {
    TakeOneMore(cs, n);
    EncodeSnoc(cs[..n], cs[n]);
  }

  /** The encoding around the n-th character. */
  lemma EncodeAround(cs: seq<Scalar>, n: nat)
    requires n < |cs|
    ensures Encode(cs) == Encode(cs[..n]) + EncodeOne(cs[n]) + Encode(cs[n + 1..])
  {
    EncodeUpTo(cs, n);
    TakeAndDrop(cs, n + 1);
    EncodeConcat(cs[..n + 1], cs[n + 1..]);
  }

  lemma TakeIntoMiddle<T>(a: seq<T>, b: seq<T>, c: seq<T>, k: nat)
    requires k <= |b|
    ensures (a + b + c)[..|a| + k] == a + b[..k]
  {
  }

  /** A text over the bound has a first character that does not fit whole. */
  lemma CutFallsInside(cs: seq<Scalar>, bound: nat)
    requires bound < |Encode(cs)|
    ensures var n := Whole(cs, bound);
            n < |cs| && 0 <= bound - |Encode(cs[..n])| < |EncodeOne(cs[n])|
  {
    var n := Whole(cs, bound);
    WholeIsLongest(cs, bound, n);
    TakeAll(cs);
    WholeIsLongest(cs, bound, |cs|);
    WholeIsLongest(cs, bound, n + 1);
    EncodeUpTo(cs, n);
  }

  /** The bytes kept beyond the whole characters: the beginning of the next one. */
  lemma CutBytes(cs: seq<Scalar>, n: nat, k: nat)
    requires n < |cs| && k <= |EncodeOne(cs[n])|
    ensures |Encode(cs[..n])| + k <= |Encode(cs)|
    ensures Encode(cs)[..|Encode(cs[..n])| + k] == Encode(cs[..n]) + EncodeOne(cs[n])[..k]
  {
    EncodeAround(cs, n);
    TakeIntoMiddle(Encode(cs[..n]), EncodeOne(cs[n]), Encode(cs[n + 1..]), k);
  }

  /** The text the trimming ends with. */
  function BoundedText(cs: seq<Scalar>, bound: nat): seq<Scalar> {
    if |Encode(cs)| <= bound then cs
    else
      var n := Whole(cs, bound);
      if bound - |Encode(cs[..n])| == 3 then cs[..n] + [REPLACEMENT] else cs[..n]
  }

  /** The bytes of the whole characters. */
  function Base(cs: seq<Scalar>, bound: nat): nat {
    |Encode(cs[..Whole(cs, bound)])|
  }

  /** What the text is, and how long once encoded again, when `end` bytes are kept. */
  ghost predicate Kept(cs: seq<Scalar>, bound: nat, end: nat, text: seq<Scalar>) {
    var n, base := Whole(cs, bound), Base(cs, bound);
    && base <= end <= bound
    && text == cs[..n] + (if end == base then [] else [REPLACEMENT])
    && |Encode(text)| == base + (if end == base then 0 else 3)
  }

  /** Decoding a cut prefix. */
  lemma CutText(cs: seq<Scalar>, bound: nat, end: nat)
    requires bound < |Encode(cs)| && Base(cs, bound) <= end <= bound
    ensures Kept(cs, bound, end, Decode(Encode(cs)[..end]))
  {
    CutFallsInside(cs, bound);
    var n, k := Whole(cs, bound), end - Base(cs, bound);
    CutBytes(cs, n, k);
    KeptText(cs, n, k, Encode(cs)[..end]);
  }

  /** The loop has reached the bounded text when what is left fits. */
  lemma TrimmingEnds(cs: seq<Scalar>, bound: nat, end: nat, text: seq<Scalar>)
    requires bound < |Encode(cs)| && Kept(cs, bound, end, text) && |Encode(text)| <= bound
    requires bound - Base(cs, bound) == 3 ==> end == bound
    ensures text == BoundedText(cs, bound)
  {
    CutFallsInside(cs, bound);
    assert cs[..Whole(cs, bound)] + [] == cs[..Whole(cs, bound)];
  }

  lemma KeptText(cs: seq<Scalar>, n: nat, k: nat, bytes: seq<Byte>)
    requires n < |cs| && k < |EncodeOne(cs[n])| && bytes == Encode(cs[..n]) + EncodeOne(cs[n])[..k]
    ensures Decode(bytes) == cs[..n] + (if k == 0 then [] else [REPLACEMENT])
    ensures |Encode(Decode(bytes))| == |Encode(cs[..n])| + (if k == 0 then 0 else 3)
  {
    DecodeWithCut(cs[..n], EncodeOne(cs[n])[..k]);
    if k == 0 {
      assert cs[..n] + [] == cs[..n];
      assert Encode(cs[..n]) + [] == Encode(cs[..n]);
    } else {
      DecodeCut(cs[n], k);
      EncodeConcat(cs[..n], [REPLACEMENT]);
      EncodeSingle(REPLACEMENT);
    }
  }

  /** `toBoundedText`: the result encodes within the bound and is the longest whole-character
      prefix, or that prefix and one U+FFFD; the loop turns at most twice. */
  method ToBoundedText(value: seq<CodeUnit>, maxBytes: nat)
    returns (text: seq<Scalar>, size: nat, truncated: bool, trims: nat)
    ensures var cs := FromUtf16(value);
            && text == BoundedText(cs, maxBytes)
            && (truncated <==> |Encode(cs)| > maxBytes)
    ensures size == |Encode(text)| <= maxBytes
    ensures trims <= 2
  {
    var cs := FromUtf16(value);
    var bytes := Encode(cs);
    trims := 0;
    if |bytes| <= maxBytes {
      DecodeEncode(cs);
      return Decode(bytes), |bytes|, false, 0;
    }
    CutFallsInside(cs, maxBytes);
    ghost var base := Base(cs, maxBytes);
    var end := maxBytes;
    CutText(cs, maxBytes, end);
    text := Decode(bytes[..end]);
    while end > 0 && |Encode(text)| > maxBytes
      invariant end == maxBytes - trims && Kept(cs, maxBytes, end, text)
      invariant maxBytes - base == 3 ==> end == maxBytes
      invariant end < maxBytes ==> maxBytes - base < 3
      decreases end
    {
      end := end - 1;
      trims := trims + 1;
      CutText(cs, maxBytes, end);
      text := Decode(bytes[..end]);
    }
    TrimmingEnds(cs, maxBytes, end, text);
    size, truncated := |Encode(text)|, true;
  }

  /** The replacement character is kept exactly when three bytes of a four-byte character were
      inside the bound. */
  lemma ReplacementKeptIff(cs: seq<Scalar>, bound: nat)
    requires bound < |Encode(cs)|
    ensures var n := Whole(cs, bound);
            && BoundedText(cs, bound) != cs[..n] <==>
                 n < |cs| && |EncodeOne(cs[n])| == 4 && bound - |Encode(cs[..n])| == 3
    ensures var n := Whole(cs, bound);
            BoundedText(cs, bound) == cs[..n] || BoundedText(cs, bound) == cs[..n] + [REPLACEMENT]
  {
    CutFallsInside(cs, bound);
    var n := Whole(cs, bound);
    assert |cs[..n] + [REPLACEMENT]| == n + 1;
  }

  datatype Finished = Finished(stdout: seq<Scalar>, stderr: seq<Scalar>, outputBytes: nat, truncated: bool)

  /** `finish`, after redaction: the two streams share one bound. */
  method Finish(rawBytes: nat, redactedStdout: seq<CodeUnit>, redactedStderr: seq<CodeUnit>, redactionTruncated: bool, maxOutputBytes: nat)
    returns (r: Finished)
    ensures |Encode(r.stdout)| + |Encode(r.stderr)| == r.outputBytes <= maxOutputBytes
    ensures r.stdout == BoundedText(FromUtf16(redactedStdout), maxOutputBytes)
    ensures r.stderr == BoundedText(FromUtf16(redactedStderr), maxOutputBytes - |Encode(r.stdout)|)
    ensures !r.truncated ==> r.stdout == FromUtf16(redactedStdout) && r.stderr == FromUtf16(redactedStderr) && rawBytes <= maxOutputBytes
    // The flag is up exactly when something was, or may have been, lost.
    ensures r.truncated <==>
              || redactionTruncated || rawBytes > maxOutputBytes
              || |Encode(FromUtf16(redactedStdout))| > maxOutputBytes
              || |Encode(FromUtf16(redactedStderr))| > maxOutputBytes - |Encode(r.stdout)|
  {
    var stdout, stdoutBytes, stdoutTruncated, _ := ToBoundedText(redactedStdout, maxOutputBytes);
    var remaining := if maxOutputBytes - stdoutBytes < 0 then 0 else maxOutputBytes - stdoutBytes;
    var stderr, stderrBytes, stderrTruncated, _ := ToBoundedText(redactedStderr, remaining);
    r := Finished(stdout, stderr, stdoutBytes + stderrBytes,
                  redactionTruncated || stdoutTruncated || stderrTruncated || rawBytes > maxOutputBytes);
  }
}
