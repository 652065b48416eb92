/** Splitting a string at a separator character and joining it again. */
module Strings {

  /** `s.split(d)` */
  function SplitOn(d: char, s: string): (r: seq<string>)
    ensures |r| >= 1
    ensures forall i :: 0 <= i < |r| ==> d !in r[i]
    ensures JoinWith(d, r) == s
  {
    if s == "" then [""]
    else
      var rest := SplitOn(d, s[1..]);
      if s[0] == d then
        assert ([""] + rest)[1..] == rest && s == [d] + s[1..];
        [""] + rest
      else
        var r := [[s[0]] + rest[0]] + rest[1..];
        assert r[1..] == rest[1..] && s == [s[0]] + s[1..];
        r
  }

  /** `segs.join(d)` */
  function JoinWith(d: char, segs: seq<string>): string {
    if |segs| == 0 then ""
    else if |segs| == 1 then segs[0]
    else segs[0] + [d] + JoinWith(d, segs[1..])
  }

  lemma {:induction false} SplitOnAtom(d: char, s: string)
    requires d !in s
    ensures SplitOn(d, s) == [s]
  {
    if s != "" {
      SplitOnAtom(d, s[1..]);
      assert s == [s[0]] + s[1..];
    }
  }

  /** A separator between two strings is a boundary of the split. */
  lemma {:induction false} SplitOnConcat(d: char, a: string, b: string)
    ensures SplitOn(d, a + [d] + b) == SplitOn(d, a) + SplitOn(d, b)
  {
    if a == "" {
      assert a + [d] + b == [d] + b;
      assert ([d] + b)[1..] == b;
    } else {
      SplitOnConcat(d, a[1..], b);
      assert (a + [d] + b)[1..] == a[1..] + [d] + b;
      PrependConcat(a[0], d, SplitOn(d, a[1..]), SplitOn(d, b));
    }
  }

  lemma PrependConcat(c: char, d: char, x: seq<string>, y: seq<string>)
    requires |x| >= 1
    ensures (if c == d then [""] + (x + y) else [[c] + (x + y)[0]] + (x + y)[1..])
         == (if c == d then [""] + x else [[c] + x[0]] + x[1..]) + y
  {
    assert (x + y)[1..] == x[1..] + y;
  }

  /** Splitting is inverse to joining segments that hold no separator. */
  lemma {:induction false} SplitOnJoin(d: char, segs: seq<string>)
    requires |segs| >= 1
    requires forall i :: 0 <= i < |segs| ==> d !in segs[i]
    ensures SplitOn(d, JoinWith(d, segs)) == segs
  {
    if |segs| == 1 {
      SplitOnAtom(d, segs[0]);
    } else {
      SplitOnJoin(d, segs[1..]);
      SplitOnConcat(d, segs[0], JoinWith(d, segs[1..]));
      SplitOnAtom(d, segs[0]);
      assert segs == [segs[0]] + segs[1..];
    }
  }

  lemma JoinWithNonEmpty(d: char, segs: seq<string>)
    requires |segs| >= 1 && segs[0] != ""
    ensures JoinWith(d, segs) != "" && JoinWith(d, segs)[0] == segs[0][0]
  {
  }

  lemma {:induction false} JoinWithLast(d: char, segs: seq<string>)
    requires |segs| >= 1
    ensures JoinWith(d, segs) ==
              if |segs| == 1 then segs[0] else JoinWith(d, segs[..|segs| - 1]) + [d] + segs[|segs| - 1]
  {
    if |segs| > 2 {
      var tail := segs[1..];
      JoinWithLast(d, tail);
      var init := segs[..|segs| - 1];
      assert init[1..] == tail[..|tail| - 1];
      assert init[0] + [d] + JoinWith(d, init[1..]) == JoinWith(d, init);
    } else if |segs| == 2 {
      assert segs[1..] == [segs[1]];
      assert segs[..1] == [segs[0]];
    }
  }

  /** `seg` lies in `s` between two separators, or between one and an end. */
  ghost predicate Between(d: char, s: string, seg: string, i: nat) {
    && i + |seg| <= |s| && s[i..i + |seg|] == seg && d !in seg
    && (i == 0 || s[i - 1] == d) && (i + |seg| == |s| || s[i + |seg|] == d)
  }

  /** A split consists of what lies between separators. */
  lemma {:induction false} SplitOnIff(d: char, s: string, seg: string)
    ensures seg in SplitOn(d, s) <==> exists i: nat :: Between(d, s, seg, i)
  {
    if d !in s {
      SplitOnAtom(d, s);
      if seg == s { assert Between(d, s, seg, 0); }
      assert forall i: nat :: Between(d, s, seg, i) ==> i == 0;
    } else {
      var k := FirstSeparator(d, s);
      var a, b := s[..k], s[k + 1..];
      assert s == a + [d] + b;
      SplitOnConcat(d, a, b);
      SplitOnAtom(d, a);
      SplitOnIff(d, b, seg);
      BetweenParts(d, a, b, seg);
    }
  }

  lemma FirstSeparator(d: char, s: string) returns (k: nat)
    requires d in s
    ensures k < |s| && s[k] == d && d !in s[..k]
  {
    k := 0;
    while s[k] != d
      invariant k < |s| && d !in s[..k]
      decreases |s| - k
    {
      assert s[..k + 1] == s[..k] + [s[k]];
      k := k + 1;
    }
  }

  /** What begins in the first part is the first part. */
  lemma BetweenFirst(d: char, a: string, b: string, seg: string, i: nat)
    requires d !in a && i <= |a| && Between(d, a + [d] + b, seg, i)
    ensures seg == a
  {
    var s := a + [d] + b;
    assert s[|a|] == d && forall j :: 0 <= j < |a| ==> s[j] == a[j];
    assert i == 0;
    assert forall j :: 0 <= j < |seg| ==> s[j] == seg[j];
    assert |seg| <= |a|;
    assert seg == a;
  }

  /** What begins behind the separator lies in the second part. */
  lemma BetweenSecond(d: char, a: string, b: string, seg: string, j: nat)
    requires d !in a && j + |seg| <= |b|
    ensures Between(d, a + [d] + b, seg, |a| + 1 + j) <==> Between(d, b, seg, j)
  {
    var s, i := a + [d] + b, |a| + 1 + j;
    assert s[i..i + |seg|] == b[j..j + |seg|];
  }

  /** A segment of two parts joined by a separator is the first part, or a segment of the second. */
  lemma BetweenParts(d: char, a: string, b: string, seg: string)
    requires d !in a
    ensures (exists i: nat :: Between(d, a + [d] + b, seg, i)) <==> seg == a || exists i: nat :: Between(d, b, seg, i)
  {
    var s := a + [d] + b;
    if i: nat :| Between(d, s, seg, i) {
      if i <= |a| { BetweenFirst(d, a, b, seg, i); } else { BetweenSecond(d, a, b, seg, i - |a| - 1); }
    }
    if seg == a {
      assert s[0..|a|] == a && s[|a|] == d;
      assert Between(d, s, seg, 0);
    }
    if j: nat :| Between(d, b, seg, j) { BetweenSecond(d, a, b, seg, j); }
  }
}
