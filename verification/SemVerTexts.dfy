/** Versions as they are written: the grammar of the version pattern (packages/cli/src/update.ts),
    and the precedence of section 11 of SemVer 2.0.0 read off the texts. */
module SemVerTexts {
  import opened Options
  import opened Strings
  import opened SemVer
  import opened Sorting

  /** The dotted parts of a version: three numbers, pre-release identifiers, build metadata. */
  datatype Spelling = Spelling(numbers: seq<string>, parts: seq<string>, build: seq<string>)

  // ---------------------------------------------------------------------
  // The grammar
  // ---------------------------------------------------------------------

  /** The largest number a version may name. */
  const LARGEST: string := "9007199254740991"

  predicate Figures(s: string) {
    s != "" && forall i :: 0 <= i < |s| ==> 48 <= s[i] as int <= 57
  }

  predicate NameText(s: string) {
    && s != ""
    && forall i :: 0 <= i < |s| ==>
         48 <= s[i] as int <= 57 || 65 <= s[i] as int <= 90 || 97 <= s[i] as int <= 122 || s[i] as int == 45
  }

  /** Of two numerals without leading zeros the shorter is smaller; of two that are equally long,
      the first different figure decides. */
  ghost predicate NumeralLess(s: string, t: string) {
    |s| < |t| || (|s| == |t| && AsciiPrecedes(s, t))
  }

  ghost predicate NumeralText(s: string) {
    Figures(s) && (|s| > 1 ==> s[0] != '0') && !NumeralLess(LARGEST, s)
  }

  ghost predicate PartText(s: string) {
    NameText(s) && (Figures(s) ==> NumeralText(s))
  }

  ghost predicate Grammatical(v: Spelling) {
    && |v.numbers| == 3 && (forall i :: 0 <= i < 3 ==> NumeralText(v.numbers[i]))
    && (forall i :: 0 <= i < |v.parts| ==> PartText(v.parts[i]))
    && (forall i :: 0 <= i < |v.build| ==> NameText(v.build[i]))
  }

  function Head(v: Spelling): string {
    JoinWith('.', v.numbers) + if v.parts == [] then "" else "-" + JoinWith('.', v.parts)
  }

  function Written(v: Spelling): string {
    Head(v) + if v.build == [] then "" else "+" + JoinWith('.', v.build)
  }

  // ---------------------------------------------------------------------
  // Numerals
  // ---------------------------------------------------------------------

  predicate AreFigures(s: string) {
    forall i :: 0 <= i < |s| ==> Digit(s[i])
  }

  /** Equally long figures compare as their values do. */
  lemma {:induction false} SameLengthOrder(s: string, t: string)
    requires AreFigures(s) && AreFigures(t) && |s| == |t|
    ensures Value(s) < Value(t) <==> AsciiPrecedes(s, t)
    ensures Value(s) == Value(t) <==> s == t
    decreases |s|
  {
    if s != "" {
      var n := |s| - 1;
      SameLengthOrder(s[..n], t[..n]);
      assert s == s[..n] + [s[n]] && t == t[..n] + [t[n]];
      LastFigure(s, t);
    } else {
      assert s == t;
    }
  }

  lemma LastFigure(s: string, t: string)
    requires |s| == |t| > 0
    ensures var n := |s| - 1;
            AsciiPrecedes(s, t) <==> AsciiPrecedes(s[..n], t[..n]) || (s[..n] == t[..n] && s[n] < t[n])
  {
    var n := |s| - 1;
    if AsciiPrecedes(s, t) {
      var k: nat :| DiffersAt(s, t, k);
      if k < n {
        assert s[..n][..k] == s[..k] && t[..n][..k] == t[..k];
        assert DiffersAt(s[..n], t[..n], k);
      }
    }
    if AsciiPrecedes(s[..n], t[..n]) {
      var k: nat :| DiffersAt(s[..n], t[..n], k);
      assert s[..n][..k] == s[..k] && t[..n][..k] == t[..k];
      assert DiffersAt(s, t, k);
    }
    if s[..n] == t[..n] && s[n] < t[n] { assert DiffersAt(s, t, n); }
  }

  function Power(n: nat): (p: nat)
    ensures p > 0
  {
    if n == 0 then 1 else 10 * Power(n - 1)
  }

  lemma {:induction false} PowerGrows(m: nat, n: nat)
    requires m <= n
    ensures Power(m) <= Power(n)
  {
    if m < n { PowerGrows(m, n - 1); }
  }

  lemma {:induction false} ValueBounds(s: string)
    requires AreFigures(s)
    ensures Value(s) < Power(|s|)
    ensures s != "" && s[0] != '0' ==> Power(|s| - 1) <= Value(s)
    decreases |s|
  {
    if s != "" {
      var n := |s| - 1;
      ValueBounds(s[..n]);
      assert Digit(s[n]);
      if n == 0 { assert s[..0] == ""; }
    }
  }

  /** Numerals compare as their values do. */
  lemma NumeralOrder(s: string, t: string)
    requires Numeral(s) && Numeral(t)
    ensures Value(s) < Value(t) <==> NumeralLess(s, t)
    ensures Value(s) == Value(t) <==> s == t
  {
    if |s| == |t| {
      SameLengthOrder(s, t);
    } else if |s| < |t| {
      LongerIsLarger(s, t);
    } else {
      LongerIsLarger(t, s);
    }
  }

  lemma LongerIsLarger(s: string, t: string)
    requires Numeral(s) && Numeral(t) && |s| < |t|
    ensures Value(s) < Value(t)
  {
    ValueBounds(s);
    ValueBounds(t);
    PowerGrows(|s|, |t| - 1);
  }

  lemma NextFigure(s: string, k: nat)
    requires k < |s| && AreFigures(s)
    ensures AreFigures(s[..k]) && AreFigures(s[..k + 1])
    ensures Value(s[..k + 1]) == 10 * Value(s[..k]) + (s[k] as int - '0' as int)
  {
    assert s[..k + 1][..k] == s[..k];
  }

  lemma LargestQuarter()
    ensures AreFigures(LARGEST) && Value(LARGEST[..4]) == 9007
  {
    assert LARGEST[..0] == "";
    NextFigure(LARGEST, 0); NextFigure(LARGEST, 1); NextFigure(LARGEST, 2); NextFigure(LARGEST, 3);
  }

  lemma LargestHalf()
    ensures AreFigures(LARGEST) && Value(LARGEST[..8]) == 90071992
  {
    LargestQuarter();
    NextFigure(LARGEST, 4); NextFigure(LARGEST, 5); NextFigure(LARGEST, 6); NextFigure(LARGEST, 7);
  }

  lemma LargestRest()
    ensures AreFigures(LARGEST) && Value(LARGEST[..12]) == 900719925474
  {
    LargestHalf();
    NextFigure(LARGEST, 8); NextFigure(LARGEST, 9); NextFigure(LARGEST, 10); NextFigure(LARGEST, 11);
  }

  lemma LargestValue()
    ensures Numeral(LARGEST) && Value(LARGEST) == MAX_SAFE_INTEGER
  {
    LargestRest();
    NextFigure(LARGEST, 12); NextFigure(LARGEST, 13); NextFigure(LARGEST, 14); NextFigure(LARGEST, 15);
    assert LARGEST[..16] == LARGEST;
  }

  /** A number is safe exactly when its text is not after the largest one. */
  lemma SafeIffText(s: string)
    ensures SafeNumeral(s) <==> NumeralText(s)
  {
    LargestValue();
    if Numeral(s) { NumeralOrder(LARGEST, s); }
  }

  // ---------------------------------------------------------------------
  // Parsing what is written
  // ---------------------------------------------------------------------

  lemma {:induction false} CutAt(head: string, c: char, rest: string)
    requires c !in head
    ensures Cut(head + [c] + rest, c) == (head, Some(rest))
  {
    var s := head + [c] + rest;
    if head == "" {
      assert s[1..] == rest;
    } else {
      assert s[1..] == head[1..] + [c] + rest && s[0] == head[0];
      CutAt(head[1..], c, rest);
      assert head == [head[0]] + head[1..];
    }
  }

  lemma {:induction false} NotInJoin(d: char, c: char, parts: seq<string>)
    requires c != d && forall i :: 0 <= i < |parts| ==> c !in parts[i]
    ensures c !in JoinWith(d, parts)
  {
    if |parts| > 1 {
      NotInJoin(d, c, parts[1..]);
    }
  }

  lemma NamesHoldNoMarks(s: string)
    requires NameText(s)
    ensures '.' !in s && '+' !in s
    ensures s != "" && forall k :: 0 <= k < |s| ==> IdentChar(s[k])
  {
  }

  lemma FiguresHoldNoMarks(s: string)
    requires NumeralText(s)
    ensures '.' !in s && '+' !in s && '-' !in s && SafeNumeral(s)
  {
    SafeIffText(s);
  }

  lemma NumbersPart(v: Spelling)
    requires Grammatical(v)
    ensures var text := JoinWith('.', v.numbers); '+' !in text && '-' !in text && SplitOn('.', text) == v.numbers
    ensures forall i :: 0 <= i < 3 ==> SafeNumeral(v.numbers[i])
  {
    forall i | 0 <= i < 3
      ensures '.' !in v.numbers[i] && '+' !in v.numbers[i] && '-' !in v.numbers[i] && SafeNumeral(v.numbers[i])
    {
      FiguresHoldNoMarks(v.numbers[i]);
    }
    NotInJoin('.', '+', v.numbers);
    NotInJoin('.', '-', v.numbers);
    SplitOnJoin('.', v.numbers);
  }

  lemma NamesPart(names: seq<string>)
    requires forall i :: 0 <= i < |names| ==> NameText(names[i])
    ensures Identifiers(names) && '+' !in JoinWith('.', names)
    ensures names != [] ==> SplitOn('.', JoinWith('.', names)) == names
  {
    forall i | 0 <= i < |names|
      ensures '.' !in names[i] && '+' !in names[i]
      ensures names[i] != "" && forall k :: 0 <= k < |names[i]| ==> IdentChar(names[i][k])
    {
      NamesHoldNoMarks(names[i]);
    }
    NotInJoin('.', '+', names);
    if names != [] { SplitOnJoin('.', names); }
  }

  lemma HeadParts(v: Spelling)
    requires Grammatical(v)
    ensures '+' !in Head(v) && Numbers(Head(v)) == v.numbers && PrereleaseParts(Head(v)) == v.parts
  {
    NumbersPart(v);
    NamesPart(v.parts);
    var text := JoinWith('.', v.numbers);
    if v.parts == [] {
      assert Head(v) == text;
      CutAbsent(text, '-');
    } else {
      assert Head(v) == text + ['-'] + JoinWith('.', v.parts);
      CutAt(text, '-', JoinWith('.', v.parts));
    }
  }

  lemma BuildPart(v: Spelling)
    requires Grammatical(v)
    ensures WithoutBuild(Written(v)) == Head(v) && BuildWellFormed(Cut(Written(v), '+').1)
  {
    HeadParts(v);
    NamesPart(v.build);
    if v.build == [] {
      assert Written(v) == Head(v);
      CutAbsent(Head(v), '+');
    } else {
      assert Written(v) == Head(v) + ['+'] + JoinWith('.', v.build);
      CutAt(Head(v), '+', JoinWith('.', v.build));
    }
  }

  lemma PartsAreSafe(parts: seq<string>)
    requires forall i :: 0 <= i < |parts| ==> PartText(parts[i])
    ensures forall i :: 0 <= i < |parts| ==> PrereleasePart(parts[i])
  {
    forall i | 0 <= i < |parts| ensures PrereleasePart(parts[i]) {
      SafeIffText(parts[i]);
      assert Figures(parts[i]) <==> AllDigits(parts[i]);
    }
  }

  /** Parsing inverts writing. */
  lemma ParseWritten(v: Spelling)
    requires Grammatical(v)
    ensures ParseVersion(Written(v)).Some?
    ensures forall i :: 0 <= i < 3 ==> SafeNumeral(v.numbers[i])
    ensures ParseVersion(Written(v)).value ==
            Version(Value(v.numbers[0]), Value(v.numbers[1]), Value(v.numbers[2]), IdentsOf(v.parts))
  {
    BuildPart(v);
    HeadParts(v);
    NumbersPart(v);
    NamesPart(v.parts);
    PartsAreSafe(v.parts);
  }

  /** A text parses exactly when it is written by the grammar. */
  lemma ParsesIffGrammatical(value: string)
    ensures Parses(value) <==> exists v :: Grammatical(v) && Written(v) == value
  {
    if Parses(value) {
      var v := SpellingOf(value);
    }
    if v :| Grammatical(v) && Written(v) == value { ParseWritten(v); }
  }

  lemma SpellingOf(value: string) returns (v: Spelling)
    requires Parses(value)
    ensures Grammatical(v) && Written(v) == value
  {
    var head, build := WithoutBuild(value), Cut(value, '+').1;
    v := Spelling(Numbers(head), PrereleaseParts(head), if build.Some? then SplitOn('.', build.value) else []);
    TextOfParts(head);
    forall i | 0 <= i < 3 ensures NumeralText(v.numbers[i]) { SafeIffText(v.numbers[i]); }
    PartsOfPatterns(v.parts);
  }

  lemma PartsOfPatterns(parts: seq<string>)
    requires Identifiers(parts) && forall i :: 0 <= i < |parts| ==> PrereleasePart(parts[i])
    ensures forall i :: 0 <= i < |parts| ==> PartText(parts[i])
  {
    forall i | 0 <= i < |parts| ensures PartText(parts[i]) {
      SafeIffText(parts[i]);
      assert Figures(parts[i]) <==> AllDigits(parts[i]);
    }
  }

  // ---------------------------------------------------------------------
  // Precedence
  // ---------------------------------------------------------------------

  /** Figures compare as numbers and come before names, which compare in ASCII order. */
  ghost predicate PartBefore(s: string, t: string) {
    if Figures(s) then Figures(t) ==> NumeralLess(s, t)
    else !Figures(t) && AsciiPrecedes(s, t)
  }

  /** The first different part decides; without one, the list that goes on is later; and a version
      without parts is later than any with. */
  ghost predicate PartsBefore(p: seq<string>, q: seq<string>) {
    p != [] && (q == [] || exists k :: PartsDifferAt(p, q, k))
  }

  ghost predicate PartsDifferAt(p: seq<string>, q: seq<string>, k: nat) {
    k <= |p| && k < |q| && p[..k] == q[..k] && (k == |p| || PartBefore(p[k], q[k]))
  }

  ghost predicate NumbersDifferAt(a: Spelling, b: Spelling, k: nat)
    requires |a.numbers| == |b.numbers| == 3
  {
    k < 3 && a.numbers[..k] == b.numbers[..k] && NumeralLess(a.numbers[k], b.numbers[k])
  }

  ghost predicate Before(a: Spelling, b: Spelling)
    requires |a.numbers| == |b.numbers| == 3
  {
    || NumbersDifferAt(a, b, 0) || NumbersDifferAt(a, b, 1) || NumbersDifferAt(a, b, 2)
    || (a.numbers == b.numbers && PartsBefore(a.parts, b.parts))
  }

  lemma PartOrder(s: string, t: string)
    requires PartText(s) && PartText(t)
    ensures IdentPrecedes(IdentOf(s), IdentOf(t)) <==> PartBefore(s, t)
  {
    SafeIffText(s);
    SafeIffText(t);
    assert (Figures(s) <==> AllDigits(s)) && (Figures(t) <==> AllDigits(t));
    if Figures(s) && Figures(t) { NumeralOrder(s, t); }
  }

  lemma SamePrefix(p: seq<string>, q: seq<string>, k: nat)
    requires forall i :: 0 <= i < |p| ==> PartText(p[i])
    requires forall i :: 0 <= i < |q| ==> PartText(q[i])
    requires k <= |p| && k <= |q|
    ensures IdentsOf(p)[..k] == IdentsOf(q)[..k] <==> p[..k] == q[..k]
  {
    PartsAreSafe(p);
    PartsAreSafe(q);
    assert IdentsOf(p)[..k] == IdentsOf(p[..k]) && IdentsOf(q)[..k] == IdentsOf(q[..k]);
    if IdentsOf(p[..k]) == IdentsOf(q[..k]) { PartsUnique(p[..k], q[..k]); }
  }

  lemma PartsOrder(p: seq<string>, q: seq<string>)
    requires forall i :: 0 <= i < |p| ==> PartText(p[i])
    requires forall i :: 0 <= i < |q| ==> PartText(q[i])
    ensures PrereleasePrecedes(IdentsOf(p), IdentsOf(q)) <==> PartsBefore(p, q)
  {
    forall k: nat ensures PrereleaseDiffersAt(IdentsOf(p), IdentsOf(q), k) <==> PartsDifferAt(p, q, k) {
      if k <= |p| && k < |q| {
        SamePrefix(p, q, k);
        if k < |p| { PartOrder(p[k], q[k]); }
      }
    }
    assert IdentsOf(p) == [] <==> p == [];
    assert IdentsOf(q) == [] <==> q == [];
  }

  lemma NumbersOrder(a: Spelling, b: Spelling, k: nat)
    requires Grammatical(a) && Grammatical(b) && k < 3
    ensures SafeNumeral(a.numbers[k]) && SafeNumeral(b.numbers[k])
    ensures Value(a.numbers[k]) < Value(b.numbers[k]) <==> NumeralLess(a.numbers[k], b.numbers[k])
    ensures Value(a.numbers[k]) == Value(b.numbers[k]) <==> a.numbers[k] == b.numbers[k]
  {
    SafeIffText(a.numbers[k]);
    SafeIffText(b.numbers[k]);
    NumeralOrder(a.numbers[k], b.numbers[k]);
  }

  /** The comparison of two texts is the precedence of their spellings; build metadata does not
      count. */
  lemma CompareWritten(a: Spelling, b: Spelling)
    requires Grammatical(a) && Grammatical(b)
    ensures Compare(Written(a), Written(b)) == -1 <==> Before(a, b)
    ensures Compare(Written(a), Written(b)) == 1 <==> Before(b, a)
    ensures Compare(Written(a), Written(b)) == 0 <==> a.numbers == b.numbers && a.parts == b.parts
    ensures -1 <= Compare(Written(a), Written(b)) <= 1
  {
    ParseWritten(a);
    ParseWritten(b);
    var x, y := ParseVersion(Written(a)).value, ParseVersion(Written(b)).value;
    CompareIsPrecedence(x, y);
    PrecedesAsWritten(a, b, x, y);
    PrecedesAsWritten(b, a, y, x);
    SameVersion(a, b);
  }

  lemma PrecedesAsWritten(a: Spelling, b: Spelling, x: Version, y: Version)
    requires Grammatical(a) && Grammatical(b)
    requires forall i :: 0 <= i < 3 ==> SafeNumeral(a.numbers[i]) && SafeNumeral(b.numbers[i])
    requires x == Version(Value(a.numbers[0]), Value(a.numbers[1]), Value(a.numbers[2]), IdentsOf(a.parts))
    requires y == Version(Value(b.numbers[0]), Value(b.numbers[1]), Value(b.numbers[2]), IdentsOf(b.parts))
    ensures Precedes(x, y) <==> Before(a, b)
  {
    NumbersOrder(a, b, 0);
    NumbersOrder(a, b, 1);
    NumbersOrder(a, b, 2);
    NumbersPrefix(a, b);
    PartsOrder(a.parts, b.parts);
  }

  lemma NumbersPrefix(a: Spelling, b: Spelling)
    requires |a.numbers| == |b.numbers| == 3
    ensures a.numbers[..0] == b.numbers[..0]
    ensures a.numbers[..1] == b.numbers[..1] <==> a.numbers[0] == b.numbers[0]
    ensures a.numbers[..2] == b.numbers[..2] <==> a.numbers[0] == b.numbers[0] && a.numbers[1] == b.numbers[1]
    ensures a.numbers == b.numbers <==>
            a.numbers[0] == b.numbers[0] && a.numbers[1] == b.numbers[1] && a.numbers[2] == b.numbers[2]
  {
    assert a.numbers[..1][0] == a.numbers[0] && b.numbers[..1][0] == b.numbers[0];
    assert a.numbers[..2][0] == a.numbers[0] && b.numbers[..2][0] == b.numbers[0];
    assert a.numbers[..2][1] == a.numbers[1] && b.numbers[..2][1] == b.numbers[1];
  }

  lemma SameVersion(a: Spelling, b: Spelling)
    requires Grammatical(a) && Grammatical(b)
    requires ParseVersion(Written(a)).Some? && ParseVersion(Written(b)).Some?
    ensures ParseVersion(Written(a)) == ParseVersion(Written(b)) <==> a.numbers == b.numbers && a.parts == b.parts
  {
    ParseWritten(a);
    ParseWritten(b);
    NumbersOrder(a, b, 0);
    NumbersOrder(a, b, 1);
    NumbersOrder(a, b, 2);
    NumbersPrefix(a, b);
    PartsAreSafe(a.parts);
    PartsAreSafe(b.parts);
    if IdentsOf(a.parts) == IdentsOf(b.parts) { PartsUnique(a.parts, b.parts); }
  }

  // ---------------------------------------------------------------------
  // The latest release
  // ---------------------------------------------------------------------

  /** A version without pre-release identifiers. */
  ghost predicate IsRelease(text: string, v: Spelling) {
    Grammatical(v) && v.parts == [] && Written(v) == text
  }

  lemma StableIffRelease(text: string)
    ensures Stable(text) <==> exists v :: IsRelease(text, v)
  {
    if Stable(text) {
      var v := SpellingOf(text);
      ParseWritten(v);
      assert IdentsOf(v.parts) == [];
      assert IsRelease(text, v);
    }
    if v :| IsRelease(text, v) {
      ParseWritten(v);
      assert IdentsOf([]) == [];
    }
  }

  lemma {:induction false} FilterAt(s: seq<string>, keep: string -> bool, i: nat) returns (n: nat)
    requires i < |Filter(s, keep)|
    ensures n < |s| && s[n] == Filter(s, keep)[i] && Filter(s[..n], keep) == Filter(s, keep)[..i]
  {
    var m := |s| - 1;
    if i < |Filter(s[..m], keep)| {
      n := FilterAt(s[..m], keep, i);
      assert s[..m][..n] == s[..n];
    } else {
      n := m;
    }
  }

  /** Selection returns a release among the keys that no other comes after, and of those the first
      key; or nothing exactly when no key is a release. */
  lemma LatestWritten(keys: seq<string>)
    ensures SelectLatestStable(keys) == None <==> forall k, v :: k in keys ==> !IsRelease(k, v)
    ensures SelectLatestStable(keys).Some? ==>
              exists n: nat, v :: n < |keys| && keys[n] == SelectLatestStable(keys).value && IsLatest(keys, n, v)
  {
    var chosen := SelectLatestStable(keys);
    LatestIsMaximal(keys, chosen);
    forall k | k in keys ensures Stable(k) <==> exists v :: IsRelease(k, v) { StableIffRelease(k); }
    if chosen.Some? {
      var n, v := LatestAt(keys);
    }
  }

  /** The release at `n` is after those before it, and not before any other. */
  ghost predicate IsLatest(keys: seq<string>, n: nat, v: Spelling)
    requires n < |keys|
  {
    && IsRelease(keys[n], v)
    && (forall j, w :: 0 <= j < |keys| && IsRelease(keys[j], w) ==> !Before(v, w))
    && (forall j, w :: 0 <= j < n && IsRelease(keys[j], w) ==> Before(w, v))
  }

  lemma LatestAt(keys: seq<string>) returns (n: nat, v: Spelling)
    requires SelectLatestStable(keys).Some?
    ensures n < |keys| && keys[n] == SelectLatestStable(keys).value && IsLatest(keys, n, v)
  {
    var stable := Filter(keys, IsStable());
    var i := LatestBreaksTies(keys);
    n := FilterAt(keys, IsStable(), i);
    assert keys[n] in stable;
    StableIffRelease(keys[n]);
    v :| IsRelease(keys[n], v);
    forall j, w | 0 <= j < |keys| && IsRelease(keys[j], w) ensures !Before(v, w) {
      var k := AmongStable(keys, j, w);
      CompareReleases(stable[i], v, stable[k], w);
      assert NewerFirst()(stable[i], stable[k]);
    }
    forall j, w | 0 <= j < n && IsRelease(keys[j], w) ensures Before(w, v) {
      var k := AmongStable(keys[..n], j, w);
      assert stable[..i][k] == stable[k];
      CompareReleases(stable[i], v, stable[k], w);
      assert !NewerFirst()(stable[k], stable[i]);
    }
  }

  /** A release is among the keys that are kept. */
  lemma AmongStable(keys: seq<string>, j: nat, w: Spelling) returns (k: nat)
    requires j < |keys| && IsRelease(keys[j], w)
    ensures k < |Filter(keys, IsStable())| && Filter(keys, IsStable())[k] == keys[j]
  {
    StableIffRelease(keys[j]);
    FilterMembers(keys, IsStable());
    assert keys[j] in keys;
    k :| 0 <= k < |Filter(keys, IsStable())| && Filter(keys, IsStable())[k] == keys[j];
  }

  lemma CompareReleases(a: string, v: Spelling, b: string, w: Spelling)
    requires IsRelease(a, v) && IsRelease(b, w)
    ensures NewerFirst()(a, b) <==> !Before(v, w)
    ensures NewerFirst()(b, a) <==> !Before(w, v)
  {
    CompareWritten(v, w);
    CompareWritten(w, v);
  }
}
