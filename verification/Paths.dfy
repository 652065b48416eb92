/** Lexical POSIX path arithmetic: the part of Node's `path.posix` that archive
    admission, extraction and the Docker root check rely on.  A path is a string;
    its meaning is the sequence of its '/'-separated segments. */
module Paths {
  import opened Strings

  type Segs = seq<string>

  /** A segment that names an entry: not empty, not ".", not "..", no separator. */
  predicate Plain(seg: string) {
    seg != "" && seg != "." && seg != ".." && '/' !in seg
  }

  predicate AllPlain(segs: Segs) {
    forall i :: 0 <= i < |segs| ==> Plain(segs[i])
  }

  predicate StartsWith(s: string, prefix: string) {
    prefix <= s
  }

  /** `s.split("/")` */
  function Split(s: string): (r: Segs) {
    SplitOn('/', s)
  }

  /** `segs.join("/")` */
  function Join(segs: Segs): string {
    JoinWith('/', segs)
  }

  /** Splitting is inverse to joining segments that hold no separator. */
  lemma SplitJoin(segs: Segs)
    requires |segs| >= 1
    requires forall i :: 0 <= i < |segs| ==> '/' !in segs[i]
    ensures Split(Join(segs)) == segs
  {
    SplitOnJoin('/', segs);
  }

  lemma SplitAtom(s: string)
    requires '/' !in s
    ensures Split(s) == [s]
  {
    SplitOnAtom('/', s);
  }

  lemma SplitConcat(a: string, b: string)
    ensures Split(a + "/" + b) == Split(a) + Split(b)
  {
    SplitOnConcat('/', a, b);
  }

  lemma JoinNonEmpty(segs: Segs)
    requires |segs| >= 1 && segs[0] != ""
    ensures Join(segs) != "" && Join(segs)[0] == segs[0][0]
  {
    JoinWithNonEmpty('/', segs);
  }

  lemma JoinLast(names: Segs)
    requires |names| >= 1
    ensures Join(names) == if |names| == 1 then names[0] else Join(names[..|names| - 1]) + "/" + names[|names| - 1]
  {
    JoinWithLast('/', names);
  }

  // ---------------------------------------------------------------------
  // Normalisation
  // ---------------------------------------------------------------------

  /** One segment of `normalizeString`: "" and "." vanish, ".." pops a name, and is kept
      (when the path may climb above its start) or dropped (when it may not) otherwise. */
  function Push(stack: Segs, seg: string, mayClimb: bool): Segs {
    if seg == "" || seg == "." then stack
    else if seg == ".." then
      if |stack| > 0 && stack[|stack| - 1] != ".." then stack[..|stack| - 1]
      else if mayClimb then stack + [".."]
      else stack
    else stack + [seg]
  }

  function Fold(stack: Segs, segs: Segs, mayClimb: bool): Segs
    decreases |segs|
  {
    if segs == [] then stack else Fold(Push(stack, segs[0], mayClimb), segs[1..], mayClimb)
  }

  /** How a normalised walk is written. */
  function Print(walk: Segs, absolute: bool, trailing: bool): string {
    if walk == [] then
      if absolute then "/" else if trailing then "./" else "."
    else
      (if absolute then "/" else "") + Join(walk) + (if trailing then "/" else "")
  }

  /** `posix.normalize` */
  function Normalize(s: string): string {
    if s == "" then "."
    else Print(Fold([], Split(s), s[0] != '/'), s[0] == '/', s[|s| - 1] == '/')
  }

  /** The names a path without ".." mentions, in order. */
  function Names(segs: Segs): (r: Segs)
    ensures ".." !in segs && (forall i :: 0 <= i < |segs| ==> '/' !in segs[i]) ==> AllPlain(r)
  {
    if segs == [] then []
    else if segs[0] == "" || segs[0] == "." then Names(segs[1..])
    else [segs[0]] + Names(segs[1..])
  }

  lemma {:induction false} FoldConcat(stack: Segs, a: Segs, b: Segs, mayClimb: bool)
    ensures Fold(stack, a + b, mayClimb) == Fold(Fold(stack, a, mayClimb), b, mayClimb)
    decreases |a|
  {
    if a == [] {
      assert a + b == b;
    } else {
      assert (a + b)[1..] == a[1..] + b;
      FoldConcat(Push(stack, a[0], mayClimb), a[1..], b, mayClimb);
    }
  }

  /** Without ".." a walk only appends the names it meets, wherever it starts. */
  lemma {:induction false} FoldNoClimb(stack: Segs, segs: Segs, mayClimb: bool)
    requires ".." !in segs
    ensures Fold(stack, segs, mayClimb) == stack + Names(segs)
    decreases |segs|
  {
    if segs != [] {
      assert segs[0] in segs;
      assert forall x :: x in segs[1..] ==> x in segs;
      FoldNoClimb(Push(stack, segs[0], mayClimb), segs[1..], mayClimb);
    }
  }

  lemma {:induction false} NamesOfPlain(segs: Segs)
    requires AllPlain(segs)
    ensures Names(segs) == segs
  {
    if segs != [] {
      assert Plain(segs[0]);
      NamesOfPlain(segs[1..]);
    }
  }

  /** `..` can survive normalisation only as a leading run. */
  ghost predicate Canonical(stack: Segs) {
    exists k: nat :: CanonicalAt(stack, k)
  }

  ghost predicate CanonicalAt(stack: Segs, k: nat) {
    && k <= |stack|
    && (forall i :: 0 <= i < k ==> stack[i] == "..")
    && (forall i :: k <= i < |stack| ==> Plain(stack[i]))
  }

  predicate Climbs(segs: Segs) {
    forall i :: 0 <= i < |segs| ==> segs[i] == ".."
  }

  lemma {:induction false} FoldCanonical(stack: Segs, segs: Segs, mayClimb: bool)
    requires Canonical(stack)
    requires forall i :: 0 <= i < |segs| ==> '/' !in segs[i]
    ensures Canonical(Fold(stack, segs, mayClimb))
    decreases |segs|
  {
    if segs != [] {
      PushCanonical(stack, segs[0], mayClimb);
      FoldCanonical(Push(stack, segs[0], mayClimb), segs[1..], mayClimb);
    }
  }

  lemma PushCanonical(stack: Segs, seg: string, mayClimb: bool)
    requires Canonical(stack) && '/' !in seg
    ensures Canonical(Push(stack, seg, mayClimb))
  {
    var k: nat :| CanonicalAt(stack, k);
    var next := Push(stack, seg, mayClimb);
    if seg == ".." && (|stack| == 0 || stack[|stack| - 1] == "..") && mayClimb {
      assert CanonicalAt(next, |next|);
    } else {
      assert CanonicalAt(next, k);
    }
  }

  /** Normalising a canonical stack again changes nothing. */
  lemma {:induction false} FoldIdempotent(stack: Segs)
    requires Canonical(stack)
    ensures Fold([], stack, true) == stack
  {
    var k: nat :| CanonicalAt(stack, k);
    assert stack == stack[..k] + stack[k..];
    FoldConcat([], stack[..k], stack[k..], true);
    FoldClimbs([], stack[..k]);
    assert [] + stack[..k] == stack[..k];
    assert ".." !in stack[k..];
    FoldNoClimb(stack[..k], stack[k..], true);
    NamesOfPlain(stack[k..]);
  }

  lemma {:induction false} FoldClimbs(stack: Segs, segs: Segs)
    requires Climbs(stack) && Climbs(segs)
    ensures Fold(stack, segs, true) == stack + segs
    decreases |segs|
  {
    if segs != [] {
      FoldClimbs(stack + [".."], segs[1..]);
      assert stack + [".."] + segs[1..] == stack + segs;
    }
  }

  // ---------------------------------------------------------------------
  // Lexical walks and the place where normalisation ends up
  // ---------------------------------------------------------------------

  /** Following `segs` one by one from `depth` levels below a root never climbs above that
      root.  This is an independent reading of "stays inside": no normalisation in it. */
  predicate StaysInside(depth: nat, segs: Segs)
    decreases |segs|
  {
    if segs == [] then true
    else if segs[0] == "" || segs[0] == "." then StaysInside(depth, segs[1..])
    else if segs[0] == ".." then depth > 0 && StaysInside(depth - 1, segs[1..])
    else StaysInside(depth + 1, segs[1..])
  }

  /** The normalised walk begins with ".." exactly when the walk leaves the root. */
  lemma {:induction false} WalkEscapes(stack: Segs, segs: Segs)
    requires AllPlain(stack)
    requires forall i :: 0 <= i < |segs| ==> '/' !in segs[i]
    ensures StaysInside(|stack|, segs) ==> AllPlain(Fold(stack, segs, true))
    ensures !StaysInside(|stack|, segs) ==>
              |Fold(stack, segs, true)| > 0 && Fold(stack, segs, true)[0] == ".."
    decreases |segs|
  {
    if segs != [] {
      if segs[0] == ".." && stack == [] {
        assert Push(stack, segs[0], true) == [".."];
        LeadingClimbStays([".."], segs[1..]);
      } else {
        if |stack| > 0 { assert Plain(stack[|stack| - 1]); }
        WalkEscapes(Push(stack, segs[0], true), segs[1..]);
      }
    }
  }

  lemma {:induction false} LeadingClimbStays(stack: Segs, segs: Segs)
    requires |stack| > 0 && stack[0] == ".."
    ensures |Fold(stack, segs, true)| > 0 && Fold(stack, segs, true)[0] == ".."
    decreases |segs|
  {
    if segs != [] {
      LeadingClimbStays(Push(stack, segs[0], true), segs[1..]);
    }
  }

  // ---------------------------------------------------------------------
  // dirname, resolve, relative
  // ---------------------------------------------------------------------

  /** The right-to-left scan of `posix.dirname` for the separator before the last name. */
  function DirEnd(path: string, i: nat, matchedSlash: bool): int
    requires i < |path|
  {
    if i == 0 then -1
    else if path[i] == '/' then
      if !matchedSlash then i else DirEnd(path, i - 1, matchedSlash)
    else DirEnd(path, i - 1, false)
  }

  lemma DirEndRange(path: string, i: nat, matchedSlash: bool)
    requires i < |path|
    ensures DirEnd(path, i, matchedSlash) <= i
    ensures -1 <= DirEnd(path, i, matchedSlash)
  {
  }

  /** `posix.dirname` */
  function Dirname(path: string): string {
    if path == "" then "."
    else
      DirEndRange(path, |path| - 1, true);
      var end := DirEnd(path, |path| - 1, true);
      if end == -1 then (if path[0] == '/' then "/" else ".")
      else if path[0] == '/' && end == 1 then "//"
      else path[..end]
  }

  lemma {:induction false} DirEndScan(path: string, end: nat, i: nat)
    requires end <= i < |path|
    requires forall k :: end < k <= i ==> path[k] != '/'
    requires end > 0 ==> path[end] == '/'
    ensures DirEnd(path, i, false) == if end == 0 then -1 else end
  {
    if i > end { DirEndScan(path, end, i - 1); }
  }

  /** The directory of a plain relative path, with or without a trailing separator. */
  lemma DirnameOfNames(names: Segs, path: string)
    requires |names| >= 1 && AllPlain(names)
    requires path == Join(names) || path == Join(names) + "/"
    ensures Dirname(path) == if |names| == 1 then "." else Join(names[..|names| - 1])
  {
    var last := names[|names| - 1];
    assert Plain(last) && Plain(names[0]);
    JoinLast(names);
    JoinNonEmpty(names);
    assert names[0][0] in names[0];
    if |names| == 1 {
      DirnameOfLast("", last, path);
    } else {
      JoinNonEmpty(names[..|names| - 1]);
      DirnameOfLast(Join(names[..|names| - 1]), last, path);
    }
  }

  lemma DirnameOfLast(dir: string, last: string, path: string)
    requires last != "" && '/' !in last
    requires dir != "" ==> dir[0] != '/'
    requires var body := if dir == "" then last else dir + "/" + last; path == body || path == body + "/"
    ensures Dirname(path) == if dir == "" then "." else dir
  {
    var body := if dir == "" then last else dir + "/" + last;
    var end := |dir|;
    var n := |body| - 1;
    assert path[..|body|] == body;
    assert path[0] != '/' by { assert last[0] in last; }
    assert forall k :: |body| - |last| <= k <= n ==> path[k] == last[k - (|body| - |last|)];
    assert forall k :: 0 <= k < |last| ==> last[k] in last;
    assert forall k :: end < k <= n ==> path[k] != '/';
    assert path[n] != '/';
    assert DirEnd(path, |path| - 1, true) == DirEnd(path, n, true);
    if n > 0 {
      assert DirEnd(path, n, true) == DirEnd(path, n - 1, false);
      DirEndScan(path, end, n - 1);
    }
    assert dir != "" ==> path[..end] == dir;
  }

  /** `posix.resolve(destination, path)` for an absolute, already resolved destination. */
  function Resolve(destination: Segs, path: string): Segs {
    if StartsWith(path, "/") then Fold([], Split(path), false)
    else Fold(destination, Split(path), false)
  }

  /** One segment taken from a directory: nothing, up (the root is its own parent), or down. */
  predicate StepsTo(at: Segs, seg: string, next: Segs) {
    if seg == "" || seg == "." then next == at
    else if seg == ".." then next == if at == [] then [] else at[..|at| - 1]
    else next == at + [seg]
  }

  /** The trail visits one directory after the other, a segment at a time. */
  ghost predicate Trail(segs: Segs, trail: seq<Segs>) {
    |trail| == |segs| + 1 && forall k :: 0 <= k < |segs| ==> StepsTo(trail[k], segs[k], trail[k + 1])
  }

  lemma {:induction false} FoldTrail(stack: Segs, segs: Segs) returns (trail: seq<Segs>)
    requires AllPlain(stack) && forall i :: 0 <= i < |segs| ==> '/' !in segs[i]
    ensures Trail(segs, trail) && trail[0] == stack && trail[|segs|] == Fold(stack, segs, false)
    decreases |segs|
  {
    if segs == [] {
      trail := [stack];
    } else {
      if stack != [] { assert Plain(stack[|stack| - 1]); }
      var rest := FoldTrail(Push(stack, segs[0], false), segs[1..]);
      trail := [stack] + rest;
      forall k | 0 <= k < |segs| ensures StepsTo(trail[k], segs[k], trail[k + 1]) {
        if k > 0 { assert StepsTo(rest[k - 1], segs[1..][k - 1], rest[k]); }
      }
    }
  }

  /** A path resolves to where its segments lead, from the root when it begins with a separator. */
  lemma ResolveIsTrail(destination: Segs, path: string) returns (trail: seq<Segs>)
    requires AllPlain(destination)
    ensures Trail(Split(path), trail)
    ensures trail[0] == (if path != "" && path[0] == '/' then [] else destination)
    ensures trail[|Split(path)|] == Resolve(destination, path)
  {
    trail := FoldTrail(if StartsWith(path, "/") then [] else destination, Split(path));
  }

  function CommonPrefix(a: Segs, b: Segs): (n: nat)
    ensures n <= |a| && n <= |b| && a[..n] == b[..n]
    ensures n < |a| && n < |b| ==> a[n] != b[n]
  {
    if a != [] && b != [] && a[0] == b[0] then
      var n := CommonPrefix(a[1..], b[1..]);
      assert a[..n + 1] == [a[0]] + a[1..][..n] && b[..n + 1] == [b[0]] + b[1..][..n];
      n + 1
    else 0
  }

  function Ups(n: nat): (r: Segs)
    ensures |r| == n && Climbs(r)
  {
    if n == 0 then [] else [".."] + Ups(n - 1)
  }

  /** `posix.relative(from, to)` for resolved paths. */
  function Relative(from: Segs, to: Segs): string {
    var n := CommonPrefix(from, to);
    Join(Ups(|from| - n) + to[n..])
  }

  /** The textual escape test applied to a `relative` result. */
  predicate LooksOutside(rel: string) {
    rel == ".." || StartsWith(rel, "../") || StartsWith(rel, "/")
  }

  /** The textual test decides the segment-prefix relation, whatever the names look like
      (`..x` and `...` included). */
  lemma RelativeDecidesPrefix(from: Segs, to: Segs)
    requires AllPlain(from) && AllPlain(to)
    ensures LooksOutside(Relative(from, to)) <==> !(from <= to)
    ensures Relative(from, to) == "" <==> from == to
  {
    var n := CommonPrefix(from, to);
    var segs := Ups(|from| - n) + to[n..];
    assert forall i :: 0 <= i < |from| && from <= to ==> from[i] == to[i];
    if n == |from| {
      assert segs == to[n..];
      assert from <= to;
      if segs == [] {
        assert from == to;
      } else {
        assert Plain(segs[0]) by { assert segs[0] == to[n]; }
        FirstSegment(segs);
        assert from != to;
      }
    } else {
      assert segs[0] == "..";
      FirstSegment(segs);
    }
  }

  /** What the first characters of a joined path say about its first segment. */
  lemma FirstSegment(segs: Segs)
    requires |segs| >= 1 && segs[0] != "" && '/' !in segs[0]
    ensures Join(segs) != "" && !StartsWith(Join(segs), "/")
    ensures Join(segs) == ".." || StartsWith(Join(segs), "../") <==> segs[0] == ".."
  {
    var s, first := Join(segs), segs[0];
    JoinNonEmpty(segs);
    assert first[0] in first;
    assert |segs| > 1 ==> s == first + ("/" + Join(segs[1..]));
    assert s[..|first|] == first;
    assert |segs| > 1 ==> s[|first|] == '/';
    assert forall i :: 0 <= i < |first| ==> first[i] in first;
    if first == ".." {
      assert |segs| > 1 ==> s[..3] == "../";
    } else {
      assert |first| >= 2 && s[0] == '.' && s[1] == '.' ==> first[..2] == "..";
      assert |first| > 2 ==> s[2] == first[2];
    }
  }

  // ---------------------------------------------------------------------
  // Back-slashes
  // ---------------------------------------------------------------------

  /** `replaceAll("\\", "/")` */
  function ToPosix(s: string): (r: string)
    ensures |r| == |s|
    ensures forall i :: 0 <= i < |s| ==> r[i] == if s[i] == '\\' then '/' else s[i]
  {
    if s == "" then "" else [if s[0] == '\\' then '/' else s[0]] + ToPosix(s[1..])
  }

  lemma {:induction false} ToPosixConcat(a: string, b: string)
    ensures ToPosix(a + b) == ToPosix(a) + ToPosix(b)
  {
    if a == "" {
      assert a + b == b;
    } else {
      assert (a + b)[1..] == a[1..] + b;
      ToPosixConcat(a[1..], b);
    }
  }

  /** A '/'-segment that holds no back-slash is still a segment once back-slashes have become
      separators. */
  lemma {:induction false} SegmentSurvives(segs: Segs, i: nat)
    requires i < |segs| && forall k :: 0 <= k < |segs| ==> '/' !in segs[k]
    requires '\\' !in segs[i]
    ensures segs[i] in Split(ToPosix(Join(segs)))
  {
    var rest := Join(segs[1..]);
    if |segs| == 1 {
      assert ToPosix(segs[0]) == segs[0];
      SplitAtom(segs[0]);
    } else {
      ToPosixConcat(segs[0] + "/", rest);
      ToPosixConcat(segs[0], "/");
      assert ToPosix("/") == "/";
      SplitConcat(ToPosix(segs[0]), ToPosix(rest));
      if i == 0 {
        assert ToPosix(segs[0]) == segs[0];
        SplitAtom(segs[0]);
      } else {
        SegmentSurvives(segs[1..], i - 1);
      }
    }
  }
}
