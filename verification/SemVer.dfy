/** Version comparison and latest-stable selection (packages/cli/src/update.ts), against the
    precedence of section 11 of SemVer 2.0.0. */
module SemVer {
  import opened Options
  import opened Strings
  import opened Sorting

  const MAX_SAFE_INTEGER: int := 9007199254740991

  datatype Ident = Num(n: nat) | Alpha(s: string)

  datatype Version = Version(major: nat, minor: nat, patch: nat, prerelease: seq<Ident>)

  // ---------------------------------------------------------------------
  // Parsing
  // ---------------------------------------------------------------------

  predicate Digit(c: char) {
    '0' <= c <= '9'
  }

  predicate IdentChar(c: char) {
    Digit(c) || 'A' <= c <= 'Z' || 'a' <= c <= 'z' || c == '-'
  }

  predicate AllDigits(s: string) {
    s != "" && forall i :: 0 <= i < |s| ==> Digit(s[i])
  }

  /** `0|[1-9]\d*` */
  predicate Numeral(s: string) {
    AllDigits(s) && (|s| > 1 ==> s[0] != '0')
  }

  /** `[0-9A-Za-z-]+(\.[0-9A-Za-z-]+)*`, already split at the dots. */
  predicate Identifiers(parts: seq<string>) {
    forall i :: 0 <= i < |parts| ==> parts[i] != "" && forall k :: 0 <= k < |parts[i]| ==> IdentChar(parts[i][k])
  }

  function Value(s: string): nat
    requires forall i :: 0 <= i < |s| ==> Digit(s[i])
  {
    if s == "" then 0
    else
      var last := s[|s| - 1];
      assert Digit(last);
      10 * Value(s[..|s| - 1]) + (last as int - '0' as int)
  }

  /** The text before the first `c`, and the text after it if there is one. */
  function Cut(s: string, c: char): (r: (string, Option<string>))
    ensures c !in r.0
    ensures s == r.0 + if r.1.Some? then [c] + r.1.value else ""
  {
    if s == "" then ("", None)
    else if s[0] == c then ("", Some(s[1..]))
    else
      var (head, tail) := Cut(s[1..], c);
      assert s == [s[0]] + s[1..];
      ([s[0]] + head, tail)
  }

  predicate SafeNumeral(s: string) {
    Numeral(s) && Value(s) <= MAX_SAFE_INTEGER
  }

  function IdentOf(s: string): Ident {
    if AllDigits(s) then Num(Value(s)) else Alpha(s)
  }

  predicate PrereleasePart(s: string) {
    AllDigits(s) ==> SafeNumeral(s)
  }

  function IdentsOf(parts: seq<string>): (r: seq<Ident>)
    ensures |r| == |parts| && forall i :: 0 <= i < |r| ==> r[i] == IdentOf(parts[i])
  {
    seq(|parts|, i requires 0 <= i < |parts| => IdentOf(parts[i]))
  }

  /** The text without build metadata. */
  function WithoutBuild(value: string): string {
    Cut(value, '+').0
  }

  /** The dotted numbers of a text without build metadata. */
  function Numbers(head: string): seq<string> {
    SplitOn('.', Cut(head, '-').0)
  }

  function PrereleaseParts(head: string): seq<string> {
    var pre := Cut(head, '-').1;
    if pre.Some? then SplitOn('.', pre.value) else []
  }

  /** What precedes the build metadata is well formed. */
  predicate HeadWellFormed(head: string) {
    var numbers, parts := Numbers(head), PrereleaseParts(head);
    && |numbers| == 3 && SafeNumeral(numbers[0]) && SafeNumeral(numbers[1]) && SafeNumeral(numbers[2])
    && Identifiers(parts) && forall i :: 0 <= i < |parts| ==> PrereleasePart(parts[i])
  }

  function VersionOf(head: string): Version
    requires HeadWellFormed(head)
  {
    var numbers := Numbers(head);
    Version(Value(numbers[0]), Value(numbers[1]), Value(numbers[2]), IdentsOf(PrereleaseParts(head)))
  }

  predicate BuildWellFormed(build: Option<string>) {
    build.Some? ==> Identifiers(SplitOn('.', build.value))
  }

  /** `parseVersion`: the pattern, then the safe-integer and leading-zero tests. */
  function ParseVersion(value: string): Option<Version> {
    if BuildWellFormed(Cut(value, '+').1) && HeadWellFormed(WithoutBuild(value))
    then Some(VersionOf(WithoutBuild(value)))
    else None
  }

  // ---------------------------------------------------------------------
  // Comparison
  // ---------------------------------------------------------------------

  /** `<` on strings: lexicographic by code unit. */
  predicate StringLess(a: string, b: string) {
    if b == "" then false
    else if a == "" then true
    else if a[0] != b[0] then a[0] < b[0]
    else StringLess(a[1..], b[1..])
  }

  function CompareIdent(a: Ident, b: Ident): int {
    if a == b then 0
    else if a.Num? && b.Num? then (if a.n < b.n then -1 else 1)
    else if a.Num? then -1
    else if b.Num? then 1
    else if StringLess(a.s, b.s) then -1 else 1
  }

  /** The early-return loop of `comparePrerelease`, from index `i` on. */
  function CompareFrom(a: seq<Ident>, b: seq<Ident>, i: nat): int
    requires i <= |a| && i <= |b|
    decreases |a| - i
  {
    if i == |a| && i == |b| then 0
    else if i == |a| then -1
    else if i == |b| then 1
    else if a[i] == b[i] then CompareFrom(a, b, i + 1)
    else CompareIdent(a[i], b[i])
  }

  function ComparePrereleaseSpec(a: seq<Ident>, b: seq<Ident>): int {
    if a == [] && b == [] then 0
    else if a == [] then 1
    else if b == [] then -1
    else CompareFrom(a, b, 0)
  }

  function CompareParsed(a: Version, b: Version): int {
    if a.major != b.major then (if a.major < b.major then -1 else 1)
    else if a.minor != b.minor then (if a.minor < b.minor then -1 else 1)
    else if a.patch != b.patch then (if a.patch < b.patch then -1 else 1)
    else ComparePrereleaseSpec(a.prerelease, b.prerelease)
  }

  function Compare(left: string, right: string): int {
    var l, r := ParseVersion(left), ParseVersion(right);
    if l.None? || r.None? then 0 else CompareParsed(l.value, r.value)
  }

  method ComparePrerelease(left: seq<Ident>, right: seq<Ident>) returns (r: int)
    ensures r == ComparePrereleaseSpec(left, right)
  {
    if |left| == 0 && |right| == 0 {
      return 0;
    }
    if |left| == 0 {
      return 1;
    }
    if |right| == 0 {
      return -1;
    }
    var length := if |left| < |right| then |right| else |left|;
    var index := 0;
    while index < length
      invariant index <= |left| && index <= |right|
      invariant CompareFrom(left, right, 0) == CompareFrom(left, right, index)
    {
      if index >= |left| {
        return -1;
      }
      if index >= |right| {
        return 1;
      }
      var leftPart, rightPart := left[index], right[index];
      if leftPart != rightPart {
        if leftPart.Num? && rightPart.Num? {
          return if leftPart.n < rightPart.n then -1 else 1;
        }
        if leftPart.Num? {
          return -1;
        }
        if rightPart.Num? {
          return 1;
        }
        return if StringLess(leftPart.s, rightPart.s) then -1 else 1;
      }
      index := index + 1;
    }
    return 0;
  }

  method CompareVersions(left: string, right: string) returns (r: int)
    ensures r == Compare(left, right)
  {
    var leftParsed, rightParsed := ParseVersion(left), ParseVersion(right);
    if leftParsed.None? || rightParsed.None? {
      return 0;
    }
    var a, b := leftParsed.value, rightParsed.value;
    var leftKeys, rightKeys := [a.major, a.minor, a.patch], [b.major, b.minor, b.patch];
    for k := 0 to 3
      invariant k > 0 ==> a.major == b.major
      invariant k > 1 ==> a.minor == b.minor
      invariant k > 2 ==> a.patch == b.patch
    {
      if leftKeys[k] != rightKeys[k] {
        return if leftKeys[k] < rightKeys[k] then -1 else 1;
      }
    }
    r := ComparePrerelease(a.prerelease, b.prerelease);
  }

  // ---------------------------------------------------------------------
  // The precedence of the standard
  // ---------------------------------------------------------------------

  /** Numeric identifiers compare numerically and precede alphanumeric ones, which compare in
      ASCII order (section 11.4.1 to 11.4.3). */
  ghost predicate IdentPrecedes(a: Ident, b: Ident) {
    match (a, b)
    case (Num(m), Num(n)) => m < n
    case (Num(_), Alpha(_)) => true
    case (Alpha(_), Num(_)) => false
    case (Alpha(s), Alpha(t)) => AsciiPrecedes(s, t)
  }

  /** The first difference decides; a proper prefix comes first. */
  ghost predicate AsciiPrecedes(s: string, t: string) {
    exists k :: DiffersAt(s, t, k)
  }

  ghost predicate DiffersAt(s: string, t: string, k: nat) {
    && k <= |s| && k < |t| && s[..k] == t[..k]
    && (k == |s| || s[k] < t[k])
  }

  ghost predicate PrereleaseDiffersAt(a: seq<Ident>, b: seq<Ident>, k: nat) {
    && k <= |a| && k < |b| && a[..k] == b[..k]
    && (k == |a| || IdentPrecedes(a[k], b[k]))
  }

  /** A version with a pre-release precedes the one without; otherwise the first differing
      identifier decides, and a longer list of them wins (sections 11.3 and 11.4.4). */
  ghost predicate PrereleasePrecedes(a: seq<Ident>, b: seq<Ident>) {
    if b == [] then a != []
    else a != [] && exists k :: PrereleaseDiffersAt(a, b, k)
  }

  ghost predicate Precedes(a: Version, b: Version) {
    || a.major < b.major
    || (a.major == b.major && a.minor < b.minor)
    || (a.major == b.major && a.minor == b.minor && a.patch < b.patch)
    || (a.major == b.major && a.minor == b.minor && a.patch == b.patch && PrereleasePrecedes(a.prerelease, b.prerelease))
  }

  lemma {:induction false} StringLessIffPrecedes(s: string, t: string)
    ensures StringLess(s, t) <==> AsciiPrecedes(s, t)
  {
    if t == "" {
    } else if s == "" || s[0] < t[0] {
      assert DiffersAt(s, t, 0);
    } else if s[0] == t[0] {
      StringLessIffPrecedes(s[1..], t[1..]);
      if StringLess(s, t) {
        var k: nat :| DiffersAt(s[1..], t[1..], k);
        assert s[..k + 1] == [s[0]] + s[1..][..k] && t[..k + 1] == [t[0]] + t[1..][..k];
        assert DiffersAt(s, t, k + 1);
      }
      if AsciiPrecedes(s, t) {
        var k: nat :| DiffersAt(s, t, k);
        assert k > 0;
        assert s[1..][..k - 1] == s[..k][1..] && t[1..][..k - 1] == t[..k][1..];
        assert DiffersAt(s[1..], t[1..], k - 1);
      }
    } else {
      forall k: nat ensures !DiffersAt(s, t, k) {
        if k > 0 && k <= |s| && k < |t| { assert s[..k][0] == s[0] && t[..k][0] == t[0]; }
      }
    }
  }

  lemma {:induction false} StringTrichotomy(s: string, t: string)
    ensures s != t ==> (StringLess(s, t) <==> !StringLess(t, s))
    ensures !StringLess(s, s)
  {
    if s != "" && t != "" {
      StringTrichotomy(s[1..], t[1..]);
      StringTrichotomy(s[1..], s[1..]);
      assert s == [s[0]] + s[1..] && t == [t[0]] + t[1..];
    } else if s != "" {
      StringTrichotomy(s[1..], s[1..]);
    }
  }

  lemma {:induction false} StringTransitive(s: string, t: string, u: string)
    requires StringLess(s, t) && StringLess(t, u)
    ensures StringLess(s, u)
  {
    if s != "" && s[0] == t[0] == u[0] { StringTransitive(s[1..], t[1..], u[1..]); }
  }

  lemma IdentOrder(a: Ident, b: Ident)
    ensures CompareIdent(a, b) == -1 <==> IdentPrecedes(a, b)
    ensures CompareIdent(a, b) == -CompareIdent(b, a)
    ensures CompareIdent(a, b) == 0 <==> a == b
  {
    if a.Alpha? && b.Alpha? {
      StringLessIffPrecedes(a.s, b.s);
      StringTrichotomy(a.s, b.s);
    }
  }

  /** Where the loop stops: at the first difference. */
  lemma {:induction false} CompareFromPrecedes(a: seq<Ident>, b: seq<Ident>, i: nat)
    requires i <= |a| && i <= |b| && a[..i] == b[..i]
    ensures CompareFrom(a, b, i) == -1 <==> exists k :: PrereleaseDiffersAt(a, b, k)
    ensures CompareFrom(a, b, i) == -CompareFrom(b, a, i)
    ensures CompareFrom(a, b, i) == 0 <==> a == b
    decreases |a| - i
  {
    if i == |a| && i == |b| {
      assert a == a[..i] && b == b[..i];
    } else if i == |a| {
      assert PrereleaseDiffersAt(a, b, i);
    } else if i == |b| {
      NoEarlierDifference(a, b, i);
    } else if a[i] == b[i] {
      assert a[..i + 1] == a[..i] + [a[i]] && b[..i + 1] == b[..i] + [b[i]];
      CompareFromPrecedes(a, b, i + 1);
    } else {
      IdentOrder(a[i], b[i]);
      NoEarlierDifference(a, b, i);
      if IdentPrecedes(a[i], b[i]) { assert PrereleaseDiffersAt(a, b, i); }
    }
  }

  /** After an equal prefix of length `i` that differs at `i`, a difference can only be there. */
  lemma NoEarlierDifference(a: seq<Ident>, b: seq<Ident>, i: nat)
    requires i <= |a| && i <= |b| && a[..i] == b[..i]
    requires i == |b| || (i < |a| && a[i] != b[i])
    ensures forall k: nat :: PrereleaseDiffersAt(a, b, k) ==> k == i && i < |b|
  {
    assert forall j :: 0 <= j < i ==> a[j] == a[..i][j] == b[..i][j] == b[j];
    forall j | 0 <= j < i ensures !IdentPrecedes(a[j], b[j]) {
      IdentOrder(a[j], b[j]);
    }
    forall k: nat | PrereleaseDiffersAt(a, b, k) ensures k == i && i < |b| {
      assert forall j :: 0 <= j < k ==> a[j] == a[..k][j] == b[..k][j] == b[j];
    }
  }

  /** The comparison matches the standard's precedence, and its ties are equalities. */
  lemma CompareIsPrecedence(a: Version, b: Version)
    ensures CompareParsed(a, b) == -1 <==> Precedes(a, b)
    ensures CompareParsed(a, b) == 1 <==> Precedes(b, a)
    ensures CompareParsed(a, b) == 0 <==> a == b
    ensures CompareParsed(a, b) == -CompareParsed(b, a)
    ensures -1 <= CompareParsed(a, b) <= 1
  {
    CompareFromPrecedes(a.prerelease, b.prerelease, 0);
    CompareFromPrecedes(b.prerelease, a.prerelease, 0);
    CompareFromRange(a.prerelease, b.prerelease, 0);
  }

  lemma {:induction false} CompareFromRange(a: seq<Ident>, b: seq<Ident>, i: nat)
    requires i <= |a| && i <= |b|
    ensures -1 <= CompareFrom(a, b, i) <= 1
    decreases |a| - i
  {
    if i < |a| && i < |b| && a[i] == b[i] { CompareFromRange(a, b, i + 1); }
  }

  lemma IdentTransitive(a: Ident, b: Ident, c: Ident)
    requires CompareIdent(a, b) <= 0 && CompareIdent(b, c) <= 0
    ensures CompareIdent(a, c) <= 0
  {
    if a.Alpha? && b.Alpha? && c.Alpha? && a != b && b != c {
      StringTransitive(a.s, b.s, c.s);
    }
  }

  /** Transitivity across numeric and alphanumeric identifiers and unequal lengths. */
  lemma {:induction false} CompareFromTransitive(a: seq<Ident>, b: seq<Ident>, c: seq<Ident>, i: nat)
    requires i <= |a| && i <= |b| && i <= |c|
    requires CompareFrom(a, b, i) <= 0 && CompareFrom(b, c, i) <= 0
    ensures CompareFrom(a, c, i) <= 0
    decreases |a| - i
  {
    if i < |a| && i < |b| && i < |c| {
      IdentOrder(a[i], b[i]);
      IdentOrder(b[i], c[i]);
      IdentOrder(a[i], c[i]);
      IdentTransitive(a[i], b[i], c[i]);
      if a[i] == b[i] && b[i] == c[i] {
        CompareFromTransitive(a, b, c, i + 1);
      }
    }
  }

  lemma ParsedTransitive(a: Version, b: Version, c: Version)
    requires CompareParsed(a, b) <= 0 && CompareParsed(b, c) <= 0
    ensures CompareParsed(a, c) <= 0
  {
    if a.prerelease != [] && b.prerelease != [] && c.prerelease != []
       && a.(prerelease := []) == b.(prerelease := []) == c.(prerelease := [])
    {
      CompareFromTransitive(a.prerelease, b.prerelease, c.prerelease, 0);
    }
  }

  // ---------------------------------------------------------------------
  // Strings: ties are build metadata only
  // ---------------------------------------------------------------------

  lemma {:induction false} NumeralPositive(s: string)
    requires Numeral(s) && s != "0"
    ensures Value(s) > 0
  {
    if |s| > 1 {
      NumeralPositive(s[..|s| - 1]);
    } else {
      assert s[..0] == "";
      assert s == [s[0]];
    }
  }

  /** A numeral is determined by its value. */
  lemma {:induction false} NumeralUnique(s: string, t: string)
    requires Numeral(s) && Numeral(t) && Value(s) == Value(t)
    ensures s == t
  {
    var m, n := |s| - 1, |t| - 1;
    assert s == s[..m] + [s[m]] && t == t[..n] + [t[n]];
    assert s[m] == t[n] && Value(s[..m]) == Value(t[..n]);
    if m > 0 { NumeralPositive(s[..m]); }
    if n > 0 { NumeralPositive(t[..n]); }
    if m > 0 && n > 0 { NumeralUnique(s[..m], t[..n]); }
  }

  lemma PartsUnique(a: seq<string>, b: seq<string>)
    requires forall i :: 0 <= i < |a| ==> PrereleasePart(a[i])
    requires forall i :: 0 <= i < |b| ==> PrereleasePart(b[i])
    requires IdentsOf(a) == IdentsOf(b)
    ensures a == b
  {
    assert |a| == |IdentsOf(a)| == |b|;
    forall i | 0 <= i < |a| ensures a[i] == b[i] {
      assert IdentOf(a[i]) == IdentsOf(a)[i] == IdentsOf(b)[i] == IdentOf(b[i]);
      if AllDigits(a[i]) { NumeralUnique(a[i], b[i]); }
    }
  }

  /** A text without build metadata is its numbers and its pre-release parts. */
  lemma TextOfParts(head: string)
    ensures head == JoinWith('.', Numbers(head))
              + if PrereleaseParts(head) == [] then "" else "-" + JoinWith('.', PrereleaseParts(head))
  {
  }

  lemma VersionDeterminesHead(a: string, b: string)
    requires HeadWellFormed(a) && HeadWellFormed(b) && VersionOf(a) == VersionOf(b)
    ensures a == b
  {
    var m, n := Numbers(a), Numbers(b);
    NumeralUnique(m[0], n[0]);
    NumeralUnique(m[1], n[1]);
    NumeralUnique(m[2], n[2]);
    assert m == n;
    PartsUnique(PrereleaseParts(a), PrereleaseParts(b));
    TextOfParts(a);
    TextOfParts(b);
  }

  /** Two versions parse alike exactly when they are the same text up to build metadata. */
  lemma ParseDeterminesText(left: string, right: string)
    requires Parses(left) && Parses(right)
    ensures ParseVersion(left) == ParseVersion(right) <==> WithoutBuild(left) == WithoutBuild(right)
  {
    if ParseVersion(left) == ParseVersion(right) {
      VersionDeterminesHead(WithoutBuild(left), WithoutBuild(right));
    }
  }

  predicate Parses(value: string) {
    ParseVersion(value).Some?
  }

  /** On parseable versions the comparator is a total preorder that agrees with the standard,
      and ties exactly the texts that differ in build metadata only. */
  lemma ComparatorIsPreorder(a: string, b: string, c: string)
    requires Parses(a) && Parses(b) && Parses(c)
    ensures Compare(a, b) == -Compare(b, a)
    ensures Compare(a, b) <= 0 && Compare(b, c) <= 0 ==> Compare(a, c) <= 0
    ensures Compare(a, b) == 0 <==> WithoutBuild(a) == WithoutBuild(b)
    ensures Compare(a, b) == -1 <==> Precedes(ParseVersion(a).value, ParseVersion(b).value)
  {
    var x, y, z := ParseVersion(a).value, ParseVersion(b).value, ParseVersion(c).value;
    CompareIsPrecedence(x, y);
    if CompareParsed(x, y) <= 0 && CompareParsed(y, z) <= 0 { ParsedTransitive(x, y, z); }
    ParseDeterminesText(a, b);
  }

  /** An unparseable text ties with everything, so a chain through it proves nothing: the chain
      a, b, c is right exactly when b parses or a does not outrank c. */
  lemma TransitiveIff(a: string, b: string, c: string)
    ensures (Compare(a, b) <= 0 && Compare(b, c) <= 0 ==> Compare(a, c) <= 0) <==> Parses(b) || !HigherPrecedence(a, c)
  {
    HigherIffCompared(a, c);
    if Parses(a) && Parses(b) && Parses(c) { ComparatorIsPreorder(a, b, c); }
  }

  /** `newer` has higher precedence in the sense of the standard. */
  ghost predicate HigherPrecedence(newer: string, older: string) {
    Parses(newer) && Parses(older) && Precedes(ParseVersion(older).value, ParseVersion(newer).value)
  }

  lemma HigherIffCompared(a: string, c: string)
    ensures HigherPrecedence(a, c) <==> Compare(a, c) > 0
  {
    if Parses(a) && Parses(c) { CompareIsPrecedence(ParseVersion(a).value, ParseVersion(c).value); }
  }

  ghost predicate TransitiveOn(s: set<string>) {
    forall a, b, c :: a in s && b in s && c in s && Compare(a, b) <= 0 && Compare(b, c) <= 0 ==> Compare(a, c) <= 0
  }

  ghost predicate OneVersion(s: set<string>) {
    forall a, c :: a in s && c in s && Parses(a) && Parses(c) ==> WithoutBuild(a) == WithoutBuild(c)
  }

  /** On a set of texts the comparator is transitive exactly when all of them parse, or those
      that do are one version up to build metadata. */
  lemma TransitiveOnIff(s: set<string>)
    ensures TransitiveOn(s) <==> (forall b :: b in s ==> Parses(b)) || OneVersion(s)
  {
    if OneVersion(s) {
      forall a, c | a in s && c in s ensures !HigherPrecedence(a, c) {
        HigherIffCompared(a, c);
        if Parses(a) && Parses(c) { ComparatorIsPreorder(a, c, a); }
      }
    } else {
      var a, c :| a in s && c in s && Parses(a) && Parses(c) && WithoutBuild(a) != WithoutBuild(c);
      forall b | b in s && !Parses(b) ensures !TransitiveOn(s) {
        BrokenChain(s, a, b, c);
      }
    }
    forall a, b, c | a in s && b in s && c in s && (Parses(b) || !HigherPrecedence(a, c))
      ensures Compare(a, b) <= 0 && Compare(b, c) <= 0 ==> Compare(a, c) <= 0
    {
      TransitiveIff(a, b, c);
    }
  }

  /** Two different versions and a text that does not parse break every chain through it, one
      way or the other. */
  lemma BrokenChain(s: set<string>, a: string, b: string, c: string)
    requires a in s && b in s && c in s
    requires Parses(a) && Parses(c) && !Parses(b) && WithoutBuild(a) != WithoutBuild(c)
    ensures !TransitiveOn(s)
  {
    ComparatorIsPreorder(a, c, a);
    assert Compare(a, b) <= 0 && Compare(b, c) <= 0 && Compare(c, b) <= 0 && Compare(b, a) <= 0;
    assert Compare(a, c) > 0 || Compare(c, a) > 0;
  }

  lemma {:induction false} CutAbsent(s: string, c: char)
    requires c !in s
    ensures Cut(s, c) == (s, None)
  {
    if s != "" {
      CutAbsent(s[1..], c);
      assert s == [s[0]] + s[1..];
    }
  }

  /** Dotted triples of one-digit numbers. */
  predicate Triple(value: string, a: string, b: string, c: string) {
    && |a| == |b| == |c| == 1 && Digit(a[0]) && Digit(b[0]) && Digit(c[0])
    && value == a + "." + (b + "." + c)
  }

  lemma TripleParts(value: string, a: string, b: string, c: string)
    requires Triple(value, a, b, c)
    ensures SplitOn('.', value) == [a, b, c]
    ensures '+' !in value && '-' !in value
  {
    SplitOnConcat('.', a, b + "." + c);
    SplitOnConcat('.', b, c);
    SplitOnAtom('.', a);
    SplitOnAtom('.', b);
    SplitOnAtom('.', c);
    assert value == [a[0], '.', b[0], '.', c[0]];
  }

  lemma OneDigit(s: string)
    requires |s| == 1 && Digit(s[0])
    ensures SafeNumeral(s) && Value(s) == s[0] as int - '0' as int
  {
    assert s[..0] == "";
  }

  lemma PlainVersion(value: string, numbers: seq<string>)
    requires '+' !in value && '-' !in value && SplitOn('.', value) == numbers
    requires |numbers| == 3 && SafeNumeral(numbers[0]) && SafeNumeral(numbers[1]) && SafeNumeral(numbers[2])
    ensures ParseVersion(value) == Some(Version(Value(numbers[0]), Value(numbers[1]), Value(numbers[2]), []))
  {
    CutAbsent(value, '+');
    CutAbsent(value, '-');
    assert PrereleaseParts(value) == [];
    assert IdentsOf([]) == [];
  }

  lemma TripleVersion(value: string, a: string, b: string, c: string)
    requires Triple(value, a, b, c)
    ensures ParseVersion(value) == Some(Version(Value(a), Value(b), Value(c), []))
  {
    TripleParts(value, a, b, c);
    OneDigit(a);
    OneDigit(b);
    OneDigit(c);
    PlainVersion(value, [a, b, c]);
  }

  /** A chain that breaks: 2.0.0 <= "" <= 1.0.0. */
  lemma NotTransitiveOnAllStrings() returns (newer: string, nonsense: string, older: string)
    ensures Compare(newer, nonsense) <= 0 && Compare(nonsense, older) <= 0 && Compare(newer, older) == 1
  {
    var zero, one, two := "0", "1", "2";
    newer, nonsense, older := two + "." + (zero + "." + zero), "", one + "." + (zero + "." + zero);
    TripleVersion(newer, two, zero, zero);
    TripleVersion(older, one, zero, zero);
    OneDigit(two);
    OneDigit(one);
    NothingParses(nonsense);
  }

  lemma NothingParses(s: string)
    requires s == ""
    ensures !Parses(s)
  {
    CutAbsent(s, '+');
    CutAbsent(s, '-');
    SplitOnAtom('.', s);
  }

  // ---------------------------------------------------------------------
  // Latest stable version
  // ---------------------------------------------------------------------

  predicate Stable(value: string) {
    Parses(value) && ParseVersion(value).value.prerelease == []
  }

  /** The sort comparator: newest first. */
  function NewerFirst(): (string, string) -> bool {
    (a: string, b: string) => Compare(b, a) <= 0
  }

  function IsStable(): string -> bool {
    (v: string) => Stable(v)
  }

  /** `selectLatestStableVersion` on the keys of the version table. */
  function SelectLatestStable(keys: seq<string>): Option<string> {
    var sorted := Sort(Filter(keys, IsStable()), NewerFirst());
    if sorted == [] then None else Some(sorted[0])
  }

  lemma StablePreorder(s: seq<string>)
    requires forall i :: 0 <= i < |s| ==> Stable(s[i])
    ensures PreorderOn(s, NewerFirst())
  {
    var le := NewerFirst();
    forall i, j | 0 <= i < |s| && 0 <= j < |s| ensures le(s[i], s[j]) || le(s[j], s[i]) {
      ComparatorIsPreorder(s[i], s[j], s[i]);
    }
    forall i, j, k | 0 <= i < |s| && 0 <= j < |s| && 0 <= k < |s| && le(s[i], s[j]) && le(s[j], s[k])
      ensures le(s[i], s[k])
    {
      ComparatorIsPreorder(s[k], s[j], s[i]);
    }
  }

  lemma NewerFirstIsPrecedence(a: string, b: string)
    requires Parses(a) && Parses(b)
    ensures NewerFirst()(a, b) <==> !HigherPrecedence(b, a)
  {
    CompareIsPrecedence(ParseVersion(a).value, ParseVersion(b).value);
    CompareIsPrecedence(ParseVersion(b).value, ParseVersion(a).value);
  }

  /** Selection returns a stable key that no stable key outranks, or nothing exactly when no
      key is stable. */
  lemma LatestIsMaximal(keys: seq<string>, chosen: Option<string>)
    requires chosen == SelectLatestStable(keys)
    ensures chosen == None <==> forall k :: k in keys ==> !Stable(k)
    ensures chosen.Some? ==> chosen.value in keys && Stable(chosen.value)
    ensures chosen.Some? ==> forall k :: k in keys && Stable(k) ==> !HigherPrecedence(k, chosen.value)
  {
    var stable := Filter(keys, IsStable());
    FilterMembers(keys, IsStable());
    if stable != [] {
      var i := LatestBreaksTies(keys);
      assert stable[i] in stable;
      forall k | k in keys && Stable(k) ensures !HigherPrecedence(k, stable[i]) {
        assert k in stable;
        var j :| 0 <= j < |stable| && stable[j] == k;
        assert NewerFirst()(stable[i], stable[j]);
        NewerFirstIsPrecedence(stable[i], k);
      }
    }
  }

  /** Among keys that differ only in build metadata the first in key order is chosen. */
  lemma LatestBreaksTies(keys: seq<string>) returns (i: nat)
    requires Filter(keys, IsStable()) != []
    ensures FirstMinimal(Filter(keys, IsStable()), NewerFirst(), i)
    ensures SelectLatestStable(keys) == Some(Filter(keys, IsStable())[i])
  {
    var stable := Filter(keys, IsStable());
    assert forall k :: 0 <= k < |stable| ==> stable[k] in stable;
    StablePreorder(stable);
    i := SortHead(stable, NewerFirst());
  }

  lemma {:induction false} FilterMembers(s: seq<string>, keep: string -> bool)
    ensures forall x :: x in Filter(s, keep) <==> x in s && keep(x)
  {
    forall x ensures x in Filter(s, keep) <==> x in s && keep(x) {
      FilterMultiset(s, keep, x);
      assert x in multiset(Filter(s, keep)) <==> x in Filter(s, keep);
      assert x in multiset(s) <==> x in s;
    }
  }
}
