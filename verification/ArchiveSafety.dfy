/** Admission of decoded archive members (packages/shared/src/archive-safety.ts):
    path normal form, duplicates, the aggregate size budget and lexical link targets. */
module ArchiveSafety {
  import opened Options
  import opened Paths
  import opened Sequences

  const MAX_SAFE_INTEGER: int := 9007199254740991

  /** A JavaScript number as far as `Number.isSafeInteger` can tell. */
  datatype Num = Integral(value: int) | NotAnInteger

  predicate IsSafe(n: Num) {
    n.Integral? && -MAX_SAFE_INTEGER <= n.value <= MAX_SAFE_INTEGER
  }

  /** Integers on which double arithmetic is exact. */
  type SafeInt = i: int | -MAX_SAFE_INTEGER <= i <= MAX_SAFE_INTEGER

  datatype Kind = File | Directory | Symlink | Hardlink

  datatype Member =
    | Malformed
    | Member(path: string, kind: Kind, size: Num, linkTarget: Option<string>)

  datatype Code = Traversal | LinkEscape | Duplicate | Limit

  datatype Verdict = Accepted | Rejected(code: Code)

  // ---------------------------------------------------------------------
  // What the code tests, member by member
  // ---------------------------------------------------------------------

  predicate Letter(c: char) {
    'A' <= c <= 'Z' || 'a' <= c <= 'z'
  }

  /** `/^[A-Za-z]:\//` */
  predicate DriveRooted(s: string) {
    |s| >= 3 && Letter(s[0]) && s[1] == ':' && s[2] == '/'
  }

  /** The path tests of the loop, on the path whose back-slashes already became '/'. */
  predicate PathPasses(path: string) {
    && path != "" && path != "." && '\0' !in path
    && !StartsWith(path, "/") && !DriveRooted(path)
    && Normalize(path) == path
    && ".." !in Split(path)
  }

  /** `posix.join(a, b)` for two non-empty parts. */
  function JoinPaths(a: string, b: string): string {
    Normalize(a + "/" + b)
  }

  /** The link tests of the loop. */
  predicate LinkPasses(path: string, linkTarget: Option<string>) {
    && linkTarget.Some? && linkTarget.value != "" && '\0' !in linkTarget.value
    && var target := ToPosix(linkTarget.value);
       var resolved := Normalize(JoinPaths(Dirname(path), target));
       && !StartsWith(target, "/") && !DriveRooted(target)
       && !StartsWith(resolved, "../") && resolved != ".." && !StartsWith(resolved, "/")
  }

  predicate IsLink(kind: Kind) {
    kind == Symlink || kind == Hardlink
  }

  // ---------------------------------------------------------------------
  // What acceptance means
  // ---------------------------------------------------------------------

  /** A relative path in normal form: "./", or plain names joined by '/', with at most one
      trailing separator. */
  ghost predicate NormalForm(path: string) {
    || path == "./"
    || exists names: Segs :: NormalSpelling(path, names)
  }

  ghost predicate NormalSpelling(path: string, names: Segs) {
    |names| >= 1 && AllPlain(names) && (path == Join(names) || path == Join(names) + "/")
  }

  /** The two spellings of the root itself. */
  lemma Dots()
    ensures Split(".") == ["."] && Split("./") == [".", ""]
    ensures Names(["."]) == [] && Names([".", ""]) == []
    ensures Fold([], ["."], true) == [] && Fold([], [".", ""], true) == []
  {
    SplitAtom(".");
    assert "./"[1..] == "/" && "/"[1..] == "";
  }

  /** The first and the last character of a printed canonical walk. */
  lemma PrintedEnds(walk: Segs)
    requires Canonical(walk) && walk != []
    ensures Join(walk) != "" && Join(walk)[0] != '/' && Join(walk)[|Join(walk)| - 1] != '/'
  {
    var k: nat :| CanonicalAt(walk, k);
    var first, last := walk[0], walk[|walk| - 1];
    assert (first == ".." || Plain(first)) && (last == ".." || Plain(last));
    JoinNonEmpty(walk);
    assert first[0] in first && last[|last| - 1] in last;
    JoinLast(walk);
    assert Join(walk)[|Join(walk)| - 1] == last[|last| - 1];
  }

  /** Printing a canonical walk, with or without a trailing separator, and reading it back. */
  lemma Printed(walk: Segs)
    requires Canonical(walk) && walk != []
    ensures Join(walk) != "" && Join(walk)[0] != '/' && Join(walk)[|Join(walk)| - 1] != '/'
    ensures Split(Join(walk)) == walk && Split(Join(walk) + "/") == walk + [""]
    ensures Fold([], walk, true) == walk && Fold([], walk + [""], true) == walk
  {
    PrintedEnds(walk);
    PrintedSegments(walk);
    FoldIdempotent(walk);
    FoldConcat([], walk, [""], true);
    assert Fold(walk, [""], true) == walk;
  }

  lemma PrintedSegments(walk: Segs)
    requires Canonical(walk) && walk != []
    ensures Split(Join(walk)) == walk && Split(Join(walk) + "/") == walk + [""]
  {
    var k: nat :| CanonicalAt(walk, k);
    assert forall i :: 0 <= i < |walk| ==> walk[i] == ".." || Plain(walk[i]);
    SplitJoin(walk);
    var s := Join(walk);
    assert s + "/" == s + "/" + "";
    SplitConcat(s, "");
  }

  lemma PrintRelative(walk: Segs, trailing: bool)
    ensures Print(walk, false, trailing) ==
              if walk == [] then (if trailing then "./" else ".") else if trailing then Join(walk) + "/" else Join(walk)
  {
  }

  /** How a relative path prints once its walk is known. */
  lemma NormalizeRelative(s: string)
    requires s != "" && s[0] != '/'
    ensures var walk := Fold([], Split(s), true);
            var trailing := s[|s| - 1] == '/';
            Normalize(s) == if walk == [] then (if trailing then "./" else ".")
                            else if trailing then Join(walk) + "/" else Join(walk)
  {
    PrintRelative(Fold([], Split(s), true), s[|s| - 1] == '/');
  }

  lemma PassingPathSpelling(path: string)
    requires path != "" && path[0] != '/' && ".." !in Split(path)
    ensures AllPlain(Names(Split(path)))
    ensures Normalize(path) == path && path != "." && path != "./" ==> NormalSpelling(path, Names(Split(path)))
    ensures path == "./" ==> Names(Split(path)) == []
  {
    FoldNoClimb([], Split(path), true);
    assert [] + Names(Split(path)) == Names(Split(path));
    NormalizeRelative(path);
    Dots();
  }

  lemma SpellingPasses(path: string, names: Segs)
    requires NormalSpelling(path, names)
    ensures Normalize(path) == path && path != "." && path != "" && path[0] != '/'
    ensures ".." !in Split(path) && Names(Split(path)) == names
  {
    assert CanonicalAt(names, 0);
    Printed(names);
    NamesOfPlain(names);
    assert Plain(names[0]) && ".." !in names;
    NormalizeRelative(path);
    Dots();
    FoldNoClimb([], Split(path), true);
    assert [] + Names(Split(path)) == Names(Split(path));
  }

  /** The path tests accept exactly the normal forms without NUL or drive prefix. */
  lemma PathPassesIffNormalForm(path: string)
    ensures PathPasses(path) <==> NormalForm(path) && '\0' !in path && !DriveRooted(path)
  {
    if PathPasses(path) {
      PassingPathSpelling(path);
    } else if path == "./" {
      Dots();
      NormalizeRelative(path);
    } else if NormalForm(path) {
      var names :| NormalSpelling(path, names);
      SpellingPasses(path, names);
    }
  }

  /** Two accepted spellings of the same names differ at most by a trailing separator, so
      distinct keys in the duplicate set can still share a target. */
  lemma AtMostTwoSpellings(a: string, b: string)
    requires PathPasses(a) && PathPasses(b)
    requires Names(Split(a)) == Names(Split(b)) && a != b
    ensures a == b + "/" || b == a + "/"
  {
    PassingPathSpelling(a);
    PassingPathSpelling(b);
  }

  // ---------------------------------------------------------------------
  // Containment
  // ---------------------------------------------------------------------

  /** Every accepted member resolves at or below the root, through plain names only; the
      writer keeps back-slashes literally, and that cannot re-introduce a climb. */
  lemma AcceptedPathIsContained(destination: Segs, path: string)
    requires AllPlain(destination)
    requires PathPasses(ToPosix(path))
    ensures Resolve(destination, path) == destination + Names(Split(path))
    ensures AllPlain(Names(Split(path)))
    ensures destination <= Resolve(destination, path)
    ensures !LooksOutside(Relative(destination, Resolve(destination, path)))
  {
    var segs := Split(path);
    forall i | 0 <= i < |segs| ensures segs[i] != ".." {
      if segs[i] == ".." { SegmentSurvives(segs, i); }
    }
    assert path != "" ==> ToPosix(path)[0] == if path[0] == '\\' then '/' else path[0];
    FoldNoClimb(destination, segs, false);
    var target := destination + Names(segs);
    assert AllPlain(target);
    RelativeDecidesPrefix(destination, target);
  }

  /** A link is accepted exactly when following its target, name by name, from the directory
      of the link never climbs above the root; the resolved target then has no "..". */
  lemma LinkPassesIffWalkStaysInside(path: string, linkTarget: Option<string>)
    requires PathPasses(path)
    ensures LinkPasses(path, linkTarget) <==>
              && linkTarget.Some? && linkTarget.value != "" && '\0' !in linkTarget.value
              && var target := ToPosix(linkTarget.value);
                 && !StartsWith(target, "/") && !DriveRooted(target)
                 && StaysInside(|ParentNames(path)|, Split(target))
    ensures LinkPasses(path, linkTarget) ==>
              ".." !in Split(Normalize(JoinPaths(Dirname(path), ToPosix(linkTarget.value))))
  {
    if linkTarget.Some? && linkTarget.value != "" {
      LinkResolution(path, ToPosix(linkTarget.value));
    }
  }

  /** The names of the directory that holds an accepted path. */
  function ParentNames(path: string): Segs {
    var names := Names(Split(path));
    if names == [] then [] else names[..|names| - 1]
  }

  lemma LinkResolution(path: string, target: string)
    requires PathPasses(path) && target != ""
    ensures var resolved := Normalize(JoinPaths(Dirname(path), target));
            && (StaysInside(|ParentNames(path)|, Split(target)) <==> !LooksOutside(resolved))
            && (StaysInside(|ParentNames(path)|, Split(target)) ==> ".." !in Split(resolved))
  {
    var dir, parent := Dirname(path), ParentNames(path);
    var joined := dir + "/" + target;
    var walk := Fold(parent, Split(target), true);
    assert Fold([], Split(joined), true) == walk by {
      DirectoryOfAccepted(path);
      SplitConcat(dir, target);
      FoldConcat([], Split(dir), Split(target), true);
    }
    assert AllPlain(parent) && joined[0] != '/' by { DirectoryOfAccepted(path); }
    assert Canonical(walk) by {
      assert CanonicalAt(parent, 0);
      FoldCanonical(parent, Split(target), true);
    }
    WalkEscapes(parent, Split(target));
    NormalizeKeepsWalk(joined, walk);
    var once := Normalize(joined);
    NormalizeKeepsWalk(once, walk);
    PrintedOutside(Normalize(once), walk);
  }

  /** Reading off a printed canonical walk whether it climbs. */
  lemma PrintedOutside(s: string, walk: Segs)
    requires Canonical(walk)
    requires walk == [] ==> s == "." || s == "./"
    requires walk != [] ==> s == Join(walk) || s == Join(walk) + "/"
    ensures LooksOutside(s) <==> walk != [] && walk[0] == ".."
    ensures AllPlain(walk) ==> ".." !in Split(s)
  {
    if walk == [] {
      Dots();
    } else {
      var k: nat :| CanonicalAt(walk, k);
      assert walk[0] == ".." || Plain(walk[0]);
      Printed(walk);
      FirstSegment(walk);
      FirstSegment(walk + [""]);
      JoinTrailing(walk);
    }
  }

  lemma JoinTrailing(segs: Segs)
    requires segs != []
    ensures Join(segs + [""]) == Join(segs) + "/"
  {
    JoinLast(segs + [""]);
    assert (segs + [""])[..|segs|] == segs;
  }

  lemma DirectoryOfAccepted(path: string)
    requires PathPasses(path)
    ensures AllPlain(ParentNames(path))
    ensures Dirname(path) != "" && Dirname(path)[0] != '/'
    ensures Fold([], Split(Dirname(path)), true) == ParentNames(path)
  {
    PassingPathSpelling(path);
    Dots();
    if path == "./" {
      assert DirEnd(path, 1, true) == -1;
    } else {
      var names := Names(Split(path));
      DirnameOfNames(names, path);
      var parent := names[..|names| - 1];
      if parent != [] {
        assert CanonicalAt(parent, 0);
        Printed(parent);
      }
    }
  }

  /** Normalising a relative path prints its walk and keeps it. */
  lemma NormalizeKeepsWalk(s: string, walk: Segs)
    requires s != "" && s[0] != '/' && Fold([], Split(s), true) == walk && Canonical(walk)
    ensures var r := Normalize(s);
            && r != "" && r[0] != '/' && Fold([], Split(r), true) == walk
            && (walk == [] ==> r == "." || r == "./")
            && (walk != [] ==> r == Join(walk) || r == Join(walk) + "/")
  {
    NormalizeRelative(s);
    if walk == [] { Dots(); } else { Printed(walk); }
  }

  // ---------------------------------------------------------------------
  // Admission, told from the members
  // ---------------------------------------------------------------------

  /** `X:/` in front, for a letter X of either case. */
  ghost predicate OnDrive(s: string) {
    && |s| > 2 && (65 <= s[0] as int < 91 || 97 <= s[0] as int < 123)
    && s[1] as int == 58 && s[2] as int == 47
  }

  /** Plain names below the root, without NUL and without a drive. */
  ghost predicate PathTold(path: string) {
    NormalForm(path) && (forall i :: 0 <= i < |path| ==> path[i] as int != 0) && !OnDrive(path)
  }

  /** A target that, followed name by name from the directory of the link, never climbs above the
      root. */
  ghost predicate LinkTold(path: string, target: string) {
    && target != "" && (forall i :: 0 <= i < |target| ==> target[i] as int != 0)
    && ToPosix(target)[0] != '/' && !OnDrive(ToPosix(target))
    && StaysInside(|ParentNames(path)|, Split(ToPosix(target)))
  }

  ghost predicate MemberTold(m: Member) {
    && m.Member? && PathTold(ToPosix(m.path))
    && m.size.Integral? && 0 <= m.size.value < 9007199254740992
    && (m.kind == Symlink || m.kind == Hardlink ==> m.linkTarget.Some? && LinkTold(ToPosix(m.path), m.linkTarget.value))
  }

  ghost function Sizes(members: seq<Member>): int {
    if members == [] then 0
    else (if members[0].Member? && members[0].size.Integral? then members[0].size.value else 0) + Sizes(members[1..])
  }

  /** Every member is as told, no two have one path, and their sizes fit. */
  ghost predicate AdmissionTold(members: seq<Member>, maxBytes: int) {
    && (forall i :: 0 <= i < |members| ==> MemberTold(members[i]))
    && (forall i, j :: 0 <= i < j < |members| ==> ToPosix(members[i].path) != ToPosix(members[j].path))
    && Sizes(members) <= maxBytes
  }

  ghost predicate LimitTold(n: Num) {
    n.Integral? && 0 < n.value < 9007199254740992
  }

  /** What is wrong with a member after admissible ones; of several things the first in this order:
      its path, a repeated path, its size, the sum, its link. */
  ghost predicate CodeTold(before: seq<Member>, m: Member, maxBytes: int, code: Code) {
    match code
    case Traversal => m.Member? && !PathTold(ToPosix(m.path))
    case Duplicate => m.Member? && PathTold(ToPosix(m.path)) && Repeated(before, ToPosix(m.path))
    case LinkEscape =>
      && m.Member? && PathTold(ToPosix(m.path)) && !Repeated(before, ToPosix(m.path))
      && m.size.Integral? && 0 <= m.size.value < 9007199254740992 && Sizes(before) + m.size.value <= maxBytes
      && (m.kind == Symlink || m.kind == Hardlink) && !(m.linkTarget.Some? && LinkTold(ToPosix(m.path), m.linkTarget.value))
    case Limit =>
      m.Member? ==>
        && PathTold(ToPosix(m.path)) && !Repeated(before, ToPosix(m.path))
        && !(m.size.Integral? && 0 <= m.size.value < 9007199254740992 && Sizes(before) + m.size.value <= maxBytes)
  }

  ghost predicate Repeated(before: seq<Member>, path: string) {
    exists i :: 0 <= i < |before| && before[i].Member? && ToPosix(before[i].path) == path
  }

  lemma FaultAsTold(before: seq<Member>, m: Member, maxBytes: int)
    requires Admissible(before, maxBytes)
    ensures Fault(before, m, maxBytes).Some? ==> CodeTold(before, m, maxBytes, Fault(before, m, maxBytes).value)
  {
    TotalIsSizes(before);
    if m.Member? {
      PathAsTold(ToPosix(m.path));
      if PathPasses(ToPosix(m.path)) { LinkAsTold(ToPosix(m.path), m.linkTarget); }
      RepeatedAsTold(before, ToPosix(m.path));
    }
  }

  lemma RepeatedAsTold(before: seq<Member>, path: string)
    requires AllSound(before)
    ensures HasKey(before, path) <==> Repeated(before, path)
  {
    if HasKey(before, path) {
      var i :| 0 <= i < |before| && Key(before[i]) == path;
      assert before[i].Member? && ToPosix(before[i].path) == path;
    }
    if Repeated(before, path) {
      var i :| 0 <= i < |before| && before[i].Member? && ToPosix(before[i].path) == path;
      assert Key(before[i]) == path;
    }
  }

  lemma DriveAsTold(s: string)
    ensures DriveRooted(s) <==> OnDrive(s)
  {
  }

  lemma PathAsTold(path: string)
    ensures PathPasses(path) <==> PathTold(path)
  {
    PathPassesIffNormalForm(path);
    DriveAsTold(path);
  }

  lemma LinkAsTold(path: string, linkTarget: Option<string>)
    requires PathPasses(path)
    ensures LinkPasses(path, linkTarget) <==> linkTarget.Some? && LinkTold(path, linkTarget.value)
  {
    LinkPassesIffWalkStaysInside(path, linkTarget);
    if linkTarget.Some? { DriveAsTold(ToPosix(linkTarget.value)); }
  }

  lemma SoundAsTold(m: Member)
    ensures Sound(m) <==> MemberTold(m)
  {
    if m.Member? {
      PathAsTold(ToPosix(m.path));
      if PathPasses(ToPosix(m.path)) { LinkAsTold(ToPosix(m.path), m.linkTarget); }
    }
  }

  lemma {:induction false} SizesSnoc(members: seq<Member>)
    requires members != [] && members[|members| - 1].Member? && members[|members| - 1].size.Integral?
    ensures Sizes(members) == Sizes(members[..|members| - 1]) + members[|members| - 1].size.value
    decreases |members|
  {
    var rest := members[1..];
    if rest != [] {
      assert rest[|rest| - 1] == members[|members| - 1];
      SizesSnoc(rest);
      assert members[..|members| - 1][1..] == rest[..|rest| - 1];
    }
  }

  lemma {:induction false} TotalIsSizes(members: seq<Member>)
    requires AllSound(members)
    ensures TotalSize(members) == Sizes(members)
    decreases |members|
  {
    if members != [] {
      assert Sound(members[|members| - 1]);
      TotalIsSizes(members[..|members| - 1]);
      SizesSnoc(members);
    }
  }

  /** The admissible lists are those told. */
  lemma AdmissionAsTold(members: seq<Member>, maxBytes: int)
    ensures Admissible(members, maxBytes) <==> AdmissionTold(members, maxBytes)
  {
    forall i | 0 <= i < |members| ensures Sound(members[i]) <==> MemberTold(members[i]) {
      SoundAsTold(members[i]);
    }
    if AllSound(members) {
      TotalIsSizes(members);
      assert forall i :: 0 <= i < |members| ==> Key(members[i]) == ToPosix(members[i].path);
    }
  }

  // ---------------------------------------------------------------------
  // The loop
  // ---------------------------------------------------------------------

  function Key(m: Member): string
    requires m.Member?
  {
    ToPosix(m.path)
  }

  /** One member is admissible on its own. */
  predicate Sound(m: Member) {
    && m.Member? && PathPasses(Key(m)) && IsSafe(m.size) && m.size.value >= 0
    && (IsLink(m.kind) ==> LinkPasses(Key(m), m.linkTarget))
  }

  predicate AllSound(members: seq<Member>) {
    forall i :: 0 <= i < |members| ==> Sound(members[i])
  }

  predicate HasKey(members: seq<Member>, key: string)
    requires AllSound(members)
  {
    exists i :: 0 <= i < |members| && Key(members[i]) == key
  }

  lemma HasKeyStep(before: seq<Member>, m: Member, key: string)
    requires AllSound(before) && Sound(m)
    ensures HasKey(before + [m], key) <==> HasKey(before, key) || key == Key(m)
  {
    var all := before + [m];
    assert all[|before|] == m && forall i :: 0 <= i < |before| ==> all[i] == before[i];
  }

  predicate DistinctKeys(members: seq<Member>)
    requires AllSound(members)
  {
    forall i, j :: 0 <= i < j < |members| ==> Key(members[i]) != Key(members[j])
  }

  function TotalSize(members: seq<Member>): (n: nat)
    requires AllSound(members)
  {
    if members == [] then 0
    else TotalSize(members[..|members| - 1]) + members[|members| - 1].size.value
  }

  /** The whole member list fits: every member sound, keys distinct, sizes within budget. */
  predicate Admissible(members: seq<Member>, maxBytes: int) {
    AllSound(members) && DistinctKeys(members) && TotalSize(members) <= maxBytes
  }

  predicate LimitsValid(maxMembers: Num, maxBytes: Num) {
    IsSafe(maxMembers) && maxMembers.value > 0 && IsSafe(maxBytes) && maxBytes.value > 0
  }

  /** The first test that member `m` fails after the admissible members `before`. */
  function Fault(before: seq<Member>, m: Member, maxBytes: int): Option<Code>
    requires Admissible(before, maxBytes)
  {
    if m.Malformed? then Some(Limit)
    else if !PathPasses(Key(m)) then Some(Traversal)
    else if HasKey(before, Key(m)) then Some(Duplicate)
    else if !IsSafe(m.size) || m.size.value < 0 then Some(Limit)
    else if TotalSize(before) + m.size.value > maxBytes then Some(Limit)
    else if IsLink(m.kind) && !LinkPasses(Key(m), m.linkTarget) then Some(LinkEscape)
    else None
  }

  lemma SoundStep(before: seq<Member>, m: Member)
    ensures AllSound(before + [m]) <==> AllSound(before) && Sound(m)
  {
    var all := before + [m];
    assert all[|before|] == m && forall i :: 0 <= i < |before| ==> all[i] == before[i];
  }

  lemma DistinctStep(before: seq<Member>, m: Member)
    requires AllSound(before) && AllSound(before + [m]) && Sound(m) && DistinctKeys(before)
    ensures DistinctKeys(before + [m]) <==> !HasKey(before, Key(m))
  {
    var all := before + [m];
    assert all[|before|] == m && forall i :: 0 <= i < |before| ==> all[i] == before[i];
    if HasKey(before, Key(m)) {
      var i :| 0 <= i < |before| && Key(before[i]) == Key(m);
      assert Key(all[i]) == Key(all[|before|]);
    } else {
      NewKeyStaysDistinct(before, m);
    }
  }

  lemma NewKeyStaysDistinct(before: seq<Member>, m: Member)
    requires AllSound(before) && AllSound(before + [m]) && Sound(m)
    requires DistinctKeys(before) && !HasKey(before, Key(m))
    ensures DistinctKeys(before + [m])
  {
    var all := before + [m];
    forall i, j | 0 <= i < j < |all| ensures Key(all[i]) != Key(all[j]) {
      assert all[i] == before[i];
      assert all[j] == if j < |before| then before[j] else m;
    }
  }

  lemma TotalStep(before: seq<Member>, m: Member)
    requires AllSound(before) && AllSound(before + [m]) && Sound(m)
    ensures TotalSize(before + [m]) == TotalSize(before) + m.size.value
  {
    assert (before + [m])[..|before|] == before;
    assert (before + [m])[|before|] == m;
  }

  /** No test fails exactly when the member is sound, new, and within what is left. */
  lemma NoFaultIff(before: seq<Member>, m: Member, maxBytes: int)
    requires Admissible(before, maxBytes)
    ensures Fault(before, m, maxBytes) == None <==>
              Sound(m) && !HasKey(before, Key(m)) && TotalSize(before) + m.size.value <= maxBytes
  {
  }

  lemma AdmissibleStep(before: seq<Member>, m: Member, maxBytes: int)
    requires Admissible(before, maxBytes)
    ensures Fault(before, m, maxBytes) == None <==> Admissible(before + [m], maxBytes)
  {
    NoFaultIff(before, m, maxBytes);
    SoundStep(before, m);
    if Sound(m) {
      DistinctStep(before, m);
      TotalStep(before, m);
    }
  }

  lemma {:induction false} AdmissiblePrefix(members: seq<Member>, n: nat, maxBytes: int)
    requires n <= |members| && Admissible(members, maxBytes)
    ensures Admissible(members[..n], maxBytes)
    decreases |members|
  {
    if n < |members| {
      var shorter := members[..|members| - 1];
      assert shorter[..n] == members[..n];
      AdmissiblePrefix(shorter, n, maxBytes);
    } else {
      assert members[..n] == members;
    }
  }

  /** Member `k` is the first to break admissibility, with fault `code`. */
  ghost predicate FirstFault(members: seq<Member>, maxBytes: int, k: nat, code: Code) {
    && k < |members| && Admissible(members[..k], maxBytes)
    && Fault(members[..k], members[k], maxBytes) == Some(code)
  }

  lemma FirstFaultRejects(members: seq<Member>, maxBytes: int, k: nat, code: Code)
    requires FirstFault(members, maxBytes, k, code)
    ensures !Admissible(members, maxBytes)
  {
    TakeOneMore(members, k);
    AdmissibleStep(members[..k], members[k], maxBytes);
    if Admissible(members, maxBytes) { AdmissiblePrefix(members, k + 1, maxBytes); }
  }

  /** What the loop knows after the members `before`: their keys and their total size. */
  ghost predicate Admitted(before: seq<Member>, seen: set<string>, total: int, maxBytes: int) {
    && Admissible(before, maxBytes)
    && (forall p :: p in seen <==> HasKey(before, p))
    && total == TotalSize(before)
  }

  lemma AdmittedStep(before: seq<Member>, seen: set<string>, total: int, maxBytes: int, m: Member)
    requires Admitted(before, seen, total, maxBytes)
    requires Fault(before, m, maxBytes) == None
    ensures Admitted(before + [m], seen + {Key(m)}, total + m.size.value, maxBytes)
    ensures 0 <= total + m.size.value <= maxBytes
  {
    AdmissibleStep(before, m, maxBytes);
    forall p ensures p in seen + {Key(m)} <==> HasKey(before + [m], p) {
      HasKeyStep(before, m, p);
    }
    assert (before + [m])[..|before|] == before;
  }

  /** The tests of one turn of the loop, against the keys and the bytes taken so far. */
  method CheckMember(seen: set<string>, total: SafeInt, member: Member, maxBytes: SafeInt, ghost before: seq<Member>)
    returns (fault: Option<Code>)
    requires Admitted(before, seen, total, maxBytes) && maxBytes > 0
    ensures fault == Fault(before, member, maxBytes)
  {
    if member.Malformed? {
      return Some(Limit);
    }
    var path := ToPosix(member.path);
    if !PathPasses(path) {
      return Some(Traversal);
    }
    if path in seen {
      return Some(Duplicate);
    }
    if !IsSafe(member.size) || member.size.value < 0 {
      return Some(Limit);
    }
    var budget: SafeInt := maxBytes - total;
    if member.size.value > budget {
      return Some(Limit);
    }
    if IsLink(member.kind) && !LinkPasses(path, member.linkTarget) {
      return Some(LinkEscape);
    }
    return None;
  }

  /** The admission loop: accepts exactly the admissible lists, and otherwise reports the
      fault of the first member that breaks admissibility. */
  method ValidateArchiveMembers(members: seq<Member>, maxMembers: Num, maxBytes: Num)
    returns (v: Verdict, ghost at: nat)
    ensures v.Accepted? <==>
              LimitsValid(maxMembers, maxBytes) && |members| <= maxMembers.value && Admissible(members, maxBytes.value)
    ensures v.Accepted? <==>
              && LimitTold(maxMembers) && LimitTold(maxBytes) && |members| <= maxMembers.value
              && AdmissionTold(members, maxBytes.value)
    ensures !LimitsValid(maxMembers, maxBytes) || |members| > maxMembers.value ==> v == Rejected(Limit)
    ensures v.Rejected? && LimitsValid(maxMembers, maxBytes) && |members| <= maxMembers.value ==>
              && FirstFault(members, maxBytes.value, at, v.code)
              && AdmissionTold(members[..at], maxBytes.value) && CodeTold(members[..at], members[at], maxBytes.value, v.code)
  {
    if maxBytes.Integral? { AdmissionAsTold(members, maxBytes.value); }
    if !LimitsValid(maxMembers, maxBytes) {
      return Rejected(Limit), 0;
    }
    if |members| > maxMembers.value {
      return Rejected(Limit), 0;
    }
    var seen: set<string> := {};
    var total: SafeInt := 0;
    for i := 0 to |members|
      invariant Admitted(members[..i], seen, total, maxBytes.value)
    {
      ghost var before := members[..i];
      var member := members[i];
      var fault := CheckMember(seen, total, member, maxBytes.value, before);
      if fault.Some? {
        FirstFaultRejects(members, maxBytes.value, i, fault.value);
        AdmissionAsTold(before, maxBytes.value);
        FaultAsTold(before, member, maxBytes.value);
        return Rejected(fault.value), i;
      }
      AdmittedStep(before, seen, total, maxBytes.value, member);
      TakeOneMore(members, i);
      seen := seen + {Key(member)};
      total := total + member.size.value;
    }
    TakeAll(members);
    return Accepted, 0;
  }

}
