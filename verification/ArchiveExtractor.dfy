/** Extraction into a fresh directory (packages/shared/src/archive-extractor.ts): prepare
    every member first, create the root exclusively, write, and remove the root on failure. */
module ArchiveExtractor {
  import opened Options
  import opened Paths
  import opened ArchiveSafety
  import opened Sequences

  // ---------------------------------------------------------------------
  // A file system: absolute segment paths to entries; the root [] is a directory
  // ---------------------------------------------------------------------

  type Bytes = seq<bv8>

  datatype Entry = Dir | FileEntry(data: Bytes)

  type Tree = map<Segs, Entry>

  predicate IsDir(t: Tree, p: Segs) {
    p == [] || (p in t && t[p] == Dir)
  }

  function Parent(p: Segs): Segs {
    if p == [] then [] else p[..|p| - 1]
  }

  /** Every entry sits in a directory. */
  ghost predicate WellFormed(t: Tree) {
    [] !in t && forall p :: p in t ==> IsDir(t, Parent(p))
  }

  /** `mkdir(p, { recursive: true })` */
  function MkdirP(t: Tree, p: Segs): Option<Tree>
    decreases |p|
  {
    if p == [] then Some(t)
    else
      match MkdirP(t, p[..|p| - 1])
      case None => None
      case Some(u) =>
        if p !in u then Some(u[p := Dir])
        else if u[p] == Dir then Some(u)
        else None
  }

  /** `p` is `q` or one of the directories on the way to it. */
  predicate Above(p: Segs, q: Segs) {
    p <= q
  }

  /** No file lies on the way to `p`. */
  ghost predicate Passable(t: Tree, p: Segs) {
    forall q :: q in t && Above(q, p) ==> t[q] == Dir
  }

  /** `u` is `t` with directories added at the missing non-empty prefixes of `p`. */
  ghost predicate WithDirs(t: Tree, u: Tree, p: Segs) {
    && (forall q :: q in u <==> q in t || (q != [] && Above(q, p)))
    && (forall q :: q in u ==> u[q] == if q in t then t[q] else Dir)
  }

  /** A recursive mkdir succeeds exactly on passable paths, and adds exactly the missing
      prefixes as directories. */
  lemma {:induction false} MkdirPSpec(t: Tree, p: Segs)
    requires [] !in t
    ensures MkdirP(t, p).Some? <==> Passable(t, p)
    ensures MkdirP(t, p).Some? ==> WithDirs(t, MkdirP(t, p).value, p)
    decreases |p|
  {
    if p != [] {
      MkdirPSpec(t, Parent(p));
      PrefixStep(p);
    }
  }

  lemma PrefixStep(p: Segs)
    ensures forall q :: Above(q, p) <==> q == p || (p != [] && Above(q, Parent(p)))
  {
    forall q ensures Above(q, p) <==> q == p || (p != [] && Above(q, Parent(p))) {
      if Above(q, p) && q != p {
        assert |q| < |p|;
      }
    }
  }

  /** Two places above a third are above one another. */
  lemma AboveLinear(r: Segs)
    ensures forall p, q :: Above(p, r) && Above(q, r) ==> Above(p, q) || Above(q, p)
  {
    forall p, q | Above(p, r) && Above(q, r) ensures Above(p, q) || Above(q, p) {
      if |p| <= |q| { assert p == r[..|p|] == q[..|p|]; } else { assert q == r[..|q|] == p[..|q|]; }
    }
  }

  /** A disk whose operations may fail; a healthy one fails only for cause. */
  class Disk {
    var tree: Tree
    const healthy: bool

    constructor (t: Tree, healthy: bool)
      ensures tree == t && this.healthy == healthy
    {
      tree := t;
      this.healthy := healthy;
    }

    /** Recursive mkdir; a fault may leave any leading part of the path created. */
    method MakeDirs(p: Segs) returns (ok: bool)
      requires WellFormed(tree)
      modifies this
      ensures WellFormed(tree)
      ensures ok ==> Passable(old(tree), p) && WithDirs(old(tree), tree, p)
      ensures !ok ==> exists q :: Above(q, p) && WithDirs(old(tree), tree, q)
      ensures healthy ==> (ok <==> Passable(old(tree), p))
    {
      MkdirPSpec(tree, p);
      var fault: bool := *;
      var stop: nat :| stop <= |p|;
      var reached := if fault && !healthy then p[..stop] else p;
      MkdirPSpec(tree, reached);
      var made := MkdirP(tree, reached);
      ok := made.Some? && !(fault && !healthy);
      if made.Some? {
        WithDirsWellFormed(tree, made.value, reached);
        tree := made.value;
      }
      assert Above([], p) && WithDirs(old(tree), old(tree), []);
      assert Above(reached, p);
    }

    /** Exclusive mkdir. */
    method MakeDir(p: Segs) returns (ok: bool)
      requires WellFormed(tree) && p != []
      modifies this
      ensures WellFormed(tree)
      ensures ok ==> p !in old(tree) && IsDir(old(tree), Parent(p)) && tree == old(tree)[p := Dir]
      ensures !ok ==> tree == old(tree)
      ensures healthy ==> (ok <==> p !in old(tree) && IsDir(old(tree), Parent(p)))
    {
      var fault: bool := *;
      ok := p !in tree && IsDir(tree, Parent(p)) && !(fault && !healthy);
      if ok { tree := tree[p := Dir]; }
    }

    /** `writeFile(p, data, { flag: "wx" })`; a fault may leave a truncated file. */
    method WriteNew(p: Segs, data: Bytes) returns (ok: bool)
      requires WellFormed(tree) && p != []
      modifies this
      ensures WellFormed(tree)
      ensures ok ==> p !in old(tree) && IsDir(old(tree), Parent(p)) && tree == old(tree)[p := FileEntry(data)]
      ensures !ok ==> tree == old(tree) || (p !in old(tree) && tree.Keys == old(tree).Keys + {p} && tree == old(tree)[p := tree[p]])
      ensures healthy ==> (ok <==> p !in old(tree) && IsDir(old(tree), Parent(p)))
    {
      var fault: bool := *;
      var kept: nat :| kept <= |data|;
      ok := false;
      if p !in tree && IsDir(tree, Parent(p)) {
        if !(fault && !healthy) {
          tree := tree[p := FileEntry(data)];
          ok := true;
        } else if kept > 0 {
          tree := tree[p := FileEntry(data[..kept])];
        }
      }
    }

    /** `rm(p, { recursive: true, force: true })`; a fault may leave any part behind. */
    method RemoveAll(p: Segs) returns (ok: bool)
      requires WellFormed(tree) && p != []
      modifies this
      ensures forall q :: !Above(p, q) ==> (q in tree <==> q in old(tree)) && (q in tree ==> tree[q] == old(tree)[q])
      ensures ok ==> forall q :: q in tree ==> !Above(p, q)
      ensures healthy ==> ok
    {
      var fault: bool := *;
      ok := !(fault && !healthy);
      if ok {
        tree := map q | q in tree && !Above(p, q) :: tree[q];
      }
    }
  }

  lemma WithDirsWellFormed(t: Tree, u: Tree, p: Segs)
    requires WellFormed(t) && Passable(t, p) && WithDirs(t, u, p)
    ensures WellFormed(u)
  {
    forall q | q in u ensures IsDir(u, Parent(q)) {
      if q in t {
        assert IsDir(t, Parent(q));
      } else {
        var up := Parent(q);
        assert Above(up, q) && Above(up, p);
      }
    }
  }

  // ---------------------------------------------------------------------
  // Preparation
  // ---------------------------------------------------------------------

  datatype Payload = Payload(member: Member, data: Option<Bytes>)

  datatype Failure =
    | Unsafe(code: Code)
    | UnsupportedLink
    | MissingData
    | WriteFailed

  datatype Outcome = Extracted | Failed(failure: Failure)

  datatype Prepared = Prepared(kind: Kind, target: Segs, data: Bytes)

  function Members(payloads: seq<Payload>): (r: seq<Member>)
    ensures |r| == |payloads|
    ensures forall i :: 0 <= i < |r| ==> r[i] == payloads[i].member
  {
    seq(|payloads|, i requires 0 <= i < |payloads| => payloads[i].member)
  }

  /** The tests of the prepare step, in the order of the source. */
  function PrepareFault(destination: Segs, p: Payload): Option<Failure>
    requires p.member.Member?
  {
    var target := Resolve(destination, p.member.path);
    if target != destination && LooksOutside(Relative(destination, target)) then Some(Unsafe(Traversal))
    else if IsLink(p.member.kind) then Some(UnsupportedLink)
    else if p.member.kind == File && p.data == None then Some(MissingData)
    else if p.member.kind == File && Integral(|p.data.value|) != p.member.size then Some(Unsafe(Limit))
    else None
  }

  predicate Preparable(p: Payload)
    requires p.member.Member?
  {
    && !IsLink(p.member.kind)
    && (p.member.kind == File ==> p.data.Some? && Integral(|p.data.value|) == p.member.size)
  }

  function PrepareOne(destination: Segs, p: Payload): Prepared
    requires p.member.Member?
  {
    Prepared(p.member.kind, Resolve(destination, p.member.path), if p.data.Some? then p.data.value else [])
  }

  function Prepare(destination: Segs, payloads: seq<Payload>): (r: seq<Prepared>)
    requires forall i :: 0 <= i < |payloads| ==> payloads[i].member.Member?
    ensures |r| == |payloads|
    ensures forall i :: 0 <= i < |r| ==> r[i] == PrepareOne(destination, payloads[i])
  {
    seq(|payloads|, i requires 0 <= i < |payloads| => PrepareOne(destination, payloads[i]))
  }

  predicate AllPreparable(payloads: seq<Payload>)
    requires forall i :: 0 <= i < |payloads| ==> payloads[i].member.Member?
  {
    forall i :: 0 <= i < |payloads| ==> Preparable(payloads[i])
  }

  /** After admission the extractor's own traversal test can never fire: what remains of the
      prepare step is whether the member is a link and whether its payload matches. */
  lemma TraversalBranchIsDead(destination: Segs, p: Payload)
    requires AllPlain(destination) && Sound(p.member)
    ensures PrepareFault(destination, p) != Some(Unsafe(Traversal))
    ensures PrepareFault(destination, p) == None <==> Preparable(p)
    ensures Above(destination, PrepareOne(destination, p).target)
  {
    AcceptedPathIsContained(destination, p.member.path);
  }

  // ---------------------------------------------------------------------
  // What a complete extraction holds
  // ---------------------------------------------------------------------

  /** No file target lies on the way to (or at) another member's target or the root. */
  ghost predicate ConflictFree(destination: Segs, prepared: seq<Prepared>) {
    && (forall i :: 0 <= i < |prepared| && prepared[i].kind == File ==> prepared[i].target != destination)
    && (forall i, j :: 0 <= i < |prepared| && 0 <= j < |prepared| && i != j && prepared[i].kind == File
          ==> !Above(prepared[i].target, prepared[j].target))
  }

  /** Some member lies at or below `q`. */
  ghost predicate Implied(q: Segs, prepared: seq<Prepared>) {
    exists i :: 0 <= i < |prepared| && Above(q, prepared[i].target)
  }

  /** Some file member is exactly `q` with content `data`. */
  ghost predicate FileAt(q: Segs, data: Bytes, prepared: seq<Prepared>) {
    exists i :: 0 <= i < |prepared| && prepared[i].kind == File && prepared[i].target == q && prepared[i].data == data
  }

  /** Outside `destination` the two trees are the same. */
  ghost predicate SameOutside(t: Tree, u: Tree, destination: Segs) {
    forall q :: !Above(destination, q) ==> (q in t <==> q in u) && (q in t ==> t[q] == u[q])
  }

  /** Below `destination` the tree holds exactly the file members with their payloads and the
      directories they and the directory members imply; elsewhere it is `outside`. */
  ghost predicate Holds(t: Tree, outside: Tree, destination: Segs, prepared: seq<Prepared>) {
    && SameOutside(t, outside, destination)
    && (forall q :: Above(destination, q) ==> (q in t <==> q == destination || Implied(q, prepared)))
    && (forall q :: Above(destination, q) && q in t ==>
          forall data :: t[q] == FileEntry(data) <==> FileAt(q, data, prepared))
  }

  /** The bytes of the file members. */
  function BytesWritten(prepared: seq<Prepared>): nat {
    if prepared == [] then 0
    else
      var last := prepared[|prepared| - 1];
      BytesWritten(prepared[..|prepared| - 1]) + if last.kind == File then |last.data| else 0
  }

  lemma {:induction false} WrittenWithinBudget(destination: Segs, payloads: seq<Payload>)
    requires AllSound(Members(payloads)) && AllPreparable(payloads)
    ensures BytesWritten(Prepare(destination, payloads)) <= TotalSize(Members(payloads))
    decreases |payloads|
  {
    if payloads != [] {
      var shorter := payloads[..|payloads| - 1];
      assert Members(shorter) == Members(payloads)[..|payloads| - 1];
      assert Prepare(destination, shorter) == Prepare(destination, payloads)[..|payloads| - 1];
      WrittenWithinBudget(destination, shorter);
      assert Sound(Members(payloads)[|payloads| - 1]);
      assert Preparable(payloads[|payloads| - 1]);
    }
  }

  // ---------------------------------------------------------------------
  // Steps of the writing loop
  // ---------------------------------------------------------------------

  lemma Grown(done: seq<Prepared>, p: Prepared)
    ensures forall q :: Implied(q, done + [p]) <==> Implied(q, done) || Above(q, p.target)
    ensures forall q, data :: FileAt(q, data, done + [p]) <==>
              FileAt(q, data, done) || (p.kind == File && q == p.target && data == p.data)
  {
    var all := done + [p];
    assert all[|done|] == p && forall i :: 0 <= i < |done| ==> all[i] == done[i];
  }

  lemma NoConflictAdded(destination: Segs, done: seq<Prepared>, p: Prepared)
    requires ConflictFree(destination, done)
    requires p.kind == File ==> p.target != destination && !Implied(p.target, done)
    requires forall i :: 0 <= i < |done| && done[i].kind == File ==> !Above(done[i].target, p.target)
    ensures ConflictFree(destination, done + [p])
  {
    var all := done + [p];
    assert all[|done|] == p && forall i :: 0 <= i < |done| ==> all[i] == done[i];
  }

  /** Files already written do not lie on a passable way. */
  lemma PassableAvoidsFiles(t: Tree, outside: Tree, destination: Segs, done: seq<Prepared>, way: Segs)
    requires Holds(t, outside, destination, done) && Passable(t, way)
    requires forall i :: 0 <= i < |done| ==> Above(destination, done[i].target)
    ensures forall i :: 0 <= i < |done| && done[i].kind == File ==> !Above(done[i].target, way)
  {
    forall i | 0 <= i < |done| && done[i].kind == File ensures !Above(done[i].target, way) {
      var q := done[i].target;
      assert Above(q, q) && Implied(q, done);
      assert FileAt(q, done[i].data, done) && t[q] == FileEntry(done[i].data);
    }
  }

  /** A directory member went in. */
  lemma DirectoryStep(t: Tree, u: Tree, outside: Tree, destination: Segs, done: seq<Prepared>, p: Prepared)
    requires Holds(t, outside, destination, done) && ConflictFree(destination, done)
    requires Above(destination, p.target) && p.kind != File
    requires forall i :: 0 <= i < |done| ==> Above(destination, done[i].target)
    requires Ancestors(t, destination) && destination != []
    requires Passable(t, p.target) && WithDirs(t, u, p.target)
    ensures Holds(u, outside, destination, done + [p]) && ConflictFree(destination, done + [p])
  {
    PassableAvoidsFiles(t, outside, destination, done, p.target);
    NoConflictAdded(destination, done, p);
    Grown(done, p);
    AboveLinear(p.target);
    forall q, data | Above(destination, q) && q in u
      ensures u[q] == FileEntry(data) <==> FileAt(q, data, done + [p])
    {
      if q !in t { NotImpliedNoFile(q, data, done); }
    }
  }

  lemma NotImpliedNoFile(q: Segs, data: Bytes, done: seq<Prepared>)
    requires !Implied(q, done)
    ensures !FileAt(q, data, done)
  {
    assert Above(q, q);
  }

  /** A file member went in. */
  lemma FileStep(t: Tree, u: Tree, v: Tree, outside: Tree, destination: Segs, done: seq<Prepared>, p: Prepared)
    requires Holds(t, outside, destination, done) && ConflictFree(destination, done)
    requires Above(destination, p.target) && p.kind == File
    requires forall i :: 0 <= i < |done| ==> Above(destination, done[i].target)
    requires Ancestors(t, destination) && destination != []
    requires Passable(t, Parent(p.target)) && WithDirs(t, u, Parent(p.target))
    requires p.target !in u && v == u[p.target := FileEntry(p.data)]
    ensures Holds(v, outside, destination, done + [p]) && ConflictFree(destination, done + [p])
  {
    assert destination in t by { assert Above(destination, destination); }
    assert p.target !in t && p.target != destination;
    PassableAvoidsFiles(t, outside, destination, done, Parent(p.target));
    PrefixStep(p.target);
    forall i | 0 <= i < |done| && done[i].kind == File ensures !Above(done[i].target, p.target) {
      assert Above(done[i].target, done[i].target) && Implied(done[i].target, done);
    }
    NoConflictAdded(destination, done, p);
    Grown(done, p);
    AboveLinear(p.target);
    forall q, data | Above(destination, q) && q in v
      ensures v[q] == FileEntry(data) <==> FileAt(q, data, done + [p])
    {
      if q !in t { NotImpliedNoFile(q, data, done); }
    }
  }

  /** Why a healthy disk can refuse the next member: it conflicts with an earlier one. */
  lemma RefusalIsConflict(t: Tree, outside: Tree, destination: Segs, prepared: seq<Prepared>, n: nat)
    requires n < |prepared| && Holds(t, outside, destination, prepared[..n]) && [] !in t
    requires Above(destination, prepared[n].target) && Ancestors(t, destination)
    requires var p := prepared[n];
             || !Passable(t, if p.kind == File then Parent(p.target) else p.target)
             || (p.kind == File && p.target in t)
    ensures !ConflictFree(destination, prepared)
  {
    var done, p := prepared[..n], prepared[n];
    var way := if p.kind == File then Parent(p.target) else p.target;
    PrefixStep(p.target);
    if !Passable(t, way) {
      var q :| q in t && Above(q, way) && t[q] != Dir;
      AboveLinear(p.target);
      assert FileAt(q, t[q].data, done);
      var i :| 0 <= i < |done| && done[i].kind == File && done[i].target == q;
      assert prepared[i] == done[i];
      assert Above(prepared[i].target, prepared[n].target);
    } else if p.target != destination {
      var i :| 0 <= i < |done| && Above(p.target, done[i].target);
      assert prepared[i] == done[i];
      assert Above(prepared[n].target, prepared[i].target);
    }
  }

  // ---------------------------------------------------------------------
  // Extraction
  // ---------------------------------------------------------------------

  /** Only missing directories above `destination` were created. */
  ghost predicate OnlyParentsAdded(before: Tree, after: Tree, destination: Segs) {
    exists q :: Above(q, Parent(destination)) && WithDirs(before, after, q)
  }

  /** `after` equals `before`, but for created parents, and nothing is left at `destination`. */
  ghost predicate Cleaned(before: Tree, after: Tree, destination: Segs) {
    && (forall q :: q in after ==> !Above(destination, q))
    && OnlyParentsAdded(before, after, destination)
  }

  /** The chain of directories from the top down to and including the root. */
  ghost predicate Ancestors(t: Tree, destination: Segs) {
    forall q :: Above(q, destination) && q != [] ==> q in t && t[q] == Dir
  }

  lemma NothingAdded(before: Tree, destination: Segs)
    ensures OnlyParentsAdded(before, before, destination)
  {
    assert Above([], Parent(destination)) && WithDirs(before, before, []);
  }

  /** In a well-formed tree an entry has all its ancestors, so a missing one has no heirs. */
  lemma {:induction false} AncestorsPresent(t: Tree, p: Segs, q: Segs)
    requires WellFormed(t) && p in t && Above(q, p) && q != []
    ensures q in t && (q != p ==> t[q] == Dir)
    decreases |p|
  {
    PrefixStep(p);
    if q != p {
      assert IsDir(t, Parent(p));
      if q != Parent(p) { AncestorsPresent(t, Parent(p), q); }
    }
  }

  lemma MissingHasNoHeirs(t: Tree, p: Segs)
    requires WellFormed(t) && p !in t && p != []
    ensures forall q :: q in t ==> !Above(p, q)
  {
    forall q | q in t ensures !Above(p, q) {
      if Above(p, q) { AncestorsPresent(t, q, p); }
    }
  }

  /** A failure before the root was claimed. */
  lemma FailedParents(before: Tree, after: Tree, destination: Segs)
    requires WellFormed(before) && destination != []
    requires OnlyParentsAdded(before, after, destination)
    ensures destination in before ==> after == before
    ensures destination !in before ==> Cleaned(before, after, destination)
  {
    var q :| Above(q, Parent(destination)) && WithDirs(before, after, q);
    if destination in before {
      forall r | r != [] && Above(r, q) ensures r in before {
        assert Above(r, destination);
        AncestorsPresent(before, destination, r);
      }
      assert after.Keys == before.Keys;
    } else {
      MissingHasNoHeirs(before, destination);
      assert forall r :: Above(r, q) ==> |r| < |destination|;
    }
  }

  /** The exclusively created root, still empty. */
  lemma FreshRoot(before: Tree, outside: Tree, t: Tree, destination: Segs)
    requires WellFormed(before) && destination != [] && destination !in outside
    requires Passable(before, Parent(destination)) && WithDirs(before, outside, Parent(destination))
    requires WellFormed(outside) && t == outside[destination := Dir]
    ensures destination !in before
    ensures Holds(t, outside, destination, []) && ConflictFree(destination, []) && Ancestors(t, destination)
  {
    MissingHasNoHeirs(outside, destination);
    PrefixStep(destination);
  }

  /** What a (possibly torn) recursive mkdir below the root leaves alone. */
  lemma MkdirStaysInside(t: Tree, u: Tree, q: Segs, target: Segs, destination: Segs)
    requires Ancestors(t, destination) && Above(destination, target) && Above(q, target) && WithDirs(t, u, q)
    ensures SameOutside(u, t, destination) && Ancestors(u, destination)
  {
    AboveLinear(target);
    assert forall r :: Above(r, q) ==> Above(r, target);
  }

  /** After the clean-up only created parents remain. */
  lemma CleanedUp(before: Tree, outside: Tree, after: Tree, destination: Segs)
    requires WellFormed(before) && destination != [] && destination !in before
    requires WithDirs(before, outside, Parent(destination))
    requires SameOutside(after, outside, destination)
    requires forall q :: q in after ==> !Above(destination, q)
    ensures Cleaned(before, after, destination)
  {
    MissingHasNoHeirs(before, destination);
    assert forall q :: Above(q, Parent(destination)) ==> |q| < |destination|;
    assert after == outside;
    assert Above(Parent(destination), Parent(destination));
  }

  /** Everything a prepared member must be before writing starts. */
  ghost predicate Ready(destination: Segs, prepared: seq<Prepared>) {
    forall i :: 0 <= i < |prepared| ==> Above(destination, prepared[i].target) && !IsLink(prepared[i].kind)
  }

  predicate AllMembers(payloads: seq<Payload>) {
    forall i :: 0 <= i < |payloads| ==> payloads[i].member.Member?
  }

  /** The first `n` payloads pass the prepare step. */
  ghost predicate PreparedUpTo(destination: Segs, payloads: seq<Payload>, n: nat) {
    && n <= |payloads| && AllMembers(payloads)
    && forall k :: 0 <= k < n ==> PrepareFault(destination, payloads[k]) == None
  }

  lemma PrepareOneMore(destination: Segs, payloads: seq<Payload>, i: nat)
    requires i < |payloads| && AllMembers(payloads)
    ensures Prepare(destination, payloads[..i + 1]) == Prepare(destination, payloads[..i]) + [PrepareOne(destination, payloads[i])]
  {
  }

  lemma ReadyWhenPrepared(destination: Segs, payloads: seq<Payload>)
    requires AllPlain(destination) && AllSound(Members(payloads))
    ensures AllMembers(payloads)
    ensures PreparedUpTo(destination, payloads, |payloads|) <==> AllPreparable(payloads)
    ensures AllPreparable(payloads) ==> Ready(destination, Prepare(destination, payloads))
  {
    forall i | 0 <= i < |payloads|
      ensures payloads[i].member.Member?
      ensures Above(destination, PrepareOne(destination, payloads[i]).target)
      ensures PrepareFault(destination, payloads[i]) == None <==> Preparable(payloads[i])
    {
      assert Sound(Members(payloads)[i]);
      TraversalBranchIsDead(destination, payloads[i]);
    }
  }

  /** The prepare step: all or nothing, and before any write; a refusal names the first
      payload that is not preparable. */
  method PrepareAll(destination: Segs, payloads: seq<Payload>)
    returns (fault: Option<Failure>, prepared: seq<Prepared>, ghost at: nat)
    requires AllMembers(payloads)
    ensures fault == None <==> PreparedUpTo(destination, payloads, |payloads|)
    ensures fault == None ==> prepared == Prepare(destination, payloads)
    ensures fault.Some? ==>
              && at < |payloads| && PreparedUpTo(destination, payloads, at)
              && PrepareFault(destination, payloads[at]) == fault
  {
    prepared, at := [], 0;
    assert Prepare(destination, payloads[..0]) == [];
    for i := 0 to |payloads|
      invariant PreparedSoFar(destination, payloads, i, prepared)
    {
      fault := PrepareFault(destination, payloads[i]);
      if fault.Some? {
        at := i;
        return;
      }
      PrepareStep(destination, payloads, i, prepared);
      prepared := prepared + [PrepareOne(destination, payloads[i])];
    }
    TakeAll(payloads);
    fault := None;
  }

  ghost predicate PreparedSoFar(destination: Segs, payloads: seq<Payload>, n: nat, prepared: seq<Prepared>) {
    PreparedUpTo(destination, payloads, n) && prepared == Prepare(destination, payloads[..n])
  }

  lemma PrepareStep(destination: Segs, payloads: seq<Payload>, i: nat, prepared: seq<Prepared>)
    requires i < |payloads| && PreparedSoFar(destination, payloads, i, prepared)
    requires PrepareFault(destination, payloads[i]) == None
    ensures PreparedSoFar(destination, payloads, i + 1, prepared + [PrepareOne(destination, payloads[i])])
  {
    PrepareOneMore(destination, payloads, i);
  }

  /** The state between two turns of the writing loop. */
  ghost predicate Written(t: Tree, outside: Tree, destination: Segs, done: seq<Prepared>) {
    && WellFormed(t) && Ancestors(t, destination)
    && Holds(t, outside, destination, done) && ConflictFree(destination, done)
  }

  method WriteDirectoryMember(disk: Disk, ghost outside: Tree, destination: Segs, ghost done: seq<Prepared>, p: Prepared)
    returns (ok: bool)
    requires destination != [] && Written(disk.tree, outside, destination, done)
    requires Ready(destination, done) && Above(destination, p.target) && p.kind == Directory
    modifies disk
    ensures WellFormed(disk.tree) && Ancestors(disk.tree, destination)
    ensures SameOutside(disk.tree, outside, destination)
    ensures ok ==> Written(disk.tree, outside, destination, done + [p])
    ensures disk.healthy && !ok ==> !Passable(old(disk.tree), p.target)
  {
    ghost var t := disk.tree;
    ok := disk.MakeDirs(p.target);
    assert Above(p.target, p.target);
    ghost var q :| Above(q, p.target) && WithDirs(t, disk.tree, q);
    MkdirStaysInside(t, disk.tree, q, p.target, destination);
    if ok { DirectoryStep(t, disk.tree, outside, destination, done, p); }
  }

  method WriteFileMember(disk: Disk, ghost outside: Tree, destination: Segs, ghost done: seq<Prepared>, p: Prepared)
    returns (ok: bool)
    requires destination != [] && Written(disk.tree, outside, destination, done)
    requires Ready(destination, done) && Above(destination, p.target) && p.kind == File
    modifies disk
    ensures WellFormed(disk.tree) && Ancestors(disk.tree, destination)
    ensures SameOutside(disk.tree, outside, destination)
    ensures ok ==> Written(disk.tree, outside, destination, done + [p])
    ensures disk.healthy && !ok ==> !Passable(old(disk.tree), Parent(p.target)) || p.target in old(disk.tree)
  {
    ghost var t := disk.tree;
    PrefixStep(p.target);
    ok := disk.MakeDirs(Parent(p.target));
    assert Above(Parent(p.target), Parent(p.target));
    ghost var u := disk.tree;
    ghost var q :| Above(q, Parent(p.target)) && WithDirs(t, u, q);
    MkdirStaysInside(t, u, q, p.target, destination);
    if ok {
      MkdirAddsNoTarget(t, u, p.target);
      ok := disk.WriteNew(p.target, p.data);
      FileStaysInside(u, disk.tree, outside, destination, p.target);
      if ok { FileStep(t, u, disk.tree, outside, destination, done, p); }
    }
  }

  /** Directories made for a file do not include the file itself. */
  lemma MkdirAddsNoTarget(t: Tree, u: Tree, target: Segs)
    requires target != [] && Passable(t, Parent(target)) && WithDirs(t, u, Parent(target))
    ensures target in u <==> target in t
    ensures IsDir(u, Parent(target))
  {
    PrefixStep(target);
    assert Above(Parent(target), Parent(target));
  }

  /** A new entry below the root, whole or torn, changes nothing outside it. */
  lemma FileStaysInside(u: Tree, v: Tree, outside: Tree, destination: Segs, target: Segs)
    requires SameOutside(u, outside, destination) && Ancestors(u, destination) && Above(destination, target)
    requires destination != []
    requires v == u || (target !in u && target in v && v == u[target := v[target]])
    ensures SameOutside(v, outside, destination) && Ancestors(v, destination)
  {
    assert destination in u by { assert Above(destination, destination); }
    AboveLinear(target);
  }

  /** One turn of the writing loop. */
  method WriteMember(disk: Disk, ghost outside: Tree, destination: Segs, ghost done: seq<Prepared>, p: Prepared)
    returns (ok: bool)
    requires destination != [] && Written(disk.tree, outside, destination, done)
    requires Ready(destination, done) && Above(destination, p.target) && !IsLink(p.kind)
    modifies disk
    ensures WellFormed(disk.tree) && Ancestors(disk.tree, destination)
    ensures SameOutside(disk.tree, outside, destination)
    ensures ok ==> Written(disk.tree, outside, destination, done + [p])
    ensures disk.healthy && !ok ==>
              || !Passable(old(disk.tree), if p.kind == File then Parent(p.target) else p.target)
              || (p.kind == File && p.target in old(disk.tree))
  {
    if p.kind == Directory {
      ok := WriteDirectoryMember(disk, outside, destination, done, p);
    } else {
      ok := WriteFileMember(disk, outside, destination, done, p);
    }
  }

  /** The writing loop. */
  method WriteAll(disk: Disk, ghost outside: Tree, destination: Segs, prepared: seq<Prepared>) returns (ok: bool)
    requires destination != [] && Written(disk.tree, outside, destination, []) && Ready(destination, prepared)
    modifies disk
    ensures WellFormed(disk.tree) && SameOutside(disk.tree, outside, destination)
    ensures ok ==> Written(disk.tree, outside, destination, prepared)
    ensures disk.healthy ==> (ok <==> ConflictFree(destination, prepared))
  {
    for i := 0 to |prepared|
      invariant Written(disk.tree, outside, destination, prepared[..i])
    {
      ghost var t := disk.tree;
      ok := WriteMember(disk, outside, destination, prepared[..i], prepared[i]);
      TakeOneMore(prepared, i);
      if !ok {
        if disk.healthy { RefusalIsConflict(t, outside, destination, prepared, i); }
        return false;
      }
    }
    TakeAll(prepared);
    return true;
  }

  // ---------------------------------------------------------------------
  // The result in terms of the payloads
  // ---------------------------------------------------------------------

  /** Where a member goes: below the destination, name by name. */
  function Place(destination: Segs, m: Member): Segs
    requires m.Member?
  {
    destination + Names(Split(m.path))
  }

  ghost predicate IsFileMember(destination: Segs, p: Payload, q: Segs, data: Bytes)
    requires p.member.Member?
  {
    p.member.kind == File && p.data == Some(data) && Place(destination, p.member) == q
  }

  /** `q` is the place of a directory member, or lies on the way to a member. */
  ghost predicate OnTheWay(destination: Segs, p: Payload, q: Segs)
    requires p.member.Member?
  {
    q <= Place(destination, p.member) && (p.member.kind == File ==> q != Place(destination, p.member))
  }

  ghost predicate SomeFile(destination: Segs, payloads: seq<Payload>, q: Segs, data: Bytes)
    requires AllMembers(payloads)
  {
    exists i :: 0 <= i < |payloads| && IsFileMember(destination, payloads[i], q, data)
  }

  ghost predicate SomeWay(destination: Segs, payloads: seq<Payload>, q: Segs)
    requires AllMembers(payloads)
  {
    exists i :: 0 <= i < |payloads| && OnTheWay(destination, payloads[i], q)
  }

  /** Below the destination there is every file member with its bytes, and nothing else but the
      destination itself and directories that the members need. */
  ghost predicate HoldsPayloads(t: Tree, destination: Segs, payloads: seq<Payload>)
    requires AllMembers(payloads)
  {
    && (forall q, data :: Above(destination, q) ==>
          (q in t && t[q] == FileEntry(data) <==> SomeFile(destination, payloads, q, data)))
    && (forall q :: Above(destination, q) ==>
          (q in t && t[q] == Dir <==> q == destination || SomeWay(destination, payloads, q)))
  }

  /** Every payload is a directory, or a file with as many bytes as its member declares. */
  predicate Fit(p: Payload) {
    && p.member.Member?
    && (p.member.kind == Directory
        || (p.member.kind == File && p.data.Some? && p.member.size == Integral(|p.data.value|)))
  }

  /** Payload `k` is the first that is not fit, for this reason. */
  ghost predicate FirstUnfit(payloads: seq<Payload>, k: nat, failure: Failure) {
    && k < |payloads| && (forall i :: 0 <= i < k ==> Fit(payloads[i]))
    && payloads[k].member.Member?
    && match payloads[k].member.kind
       case Directory => false
       case File =>
         if payloads[k].data == None then failure == MissingData
         else payloads[k].member.size != Integral(|payloads[k].data.value|) && failure == Unsafe(Limit)
       case _ => failure == UnsupportedLink
  }

  lemma FitWhenPrepared(destination: Segs, payloads: seq<Payload>)
    requires AllPlain(destination) && AllSound(Members(payloads)) && AllMembers(payloads)
    ensures PreparedUpTo(destination, payloads, |payloads|) <==> forall i :: 0 <= i < |payloads| ==> Fit(payloads[i])
  {
    ReadyWhenPrepared(destination, payloads);
    forall i | 0 <= i < |payloads| ensures Fit(payloads[i]) <==> Preparable(payloads[i]) {
      FitIffPreparable(payloads[i]);
    }
  }

  lemma FitIffPreparable(p: Payload)
    requires p.member.Member?
    ensures Fit(p) <==> Preparable(p)
  {
  }

  lemma UnfitReason(destination: Segs, payloads: seq<Payload>, at: nat, failure: Failure)
    requires AllPlain(destination) && AllSound(Members(payloads)) && AllMembers(payloads)
    requires at < |payloads| && PreparedUpTo(destination, payloads, at) && PrepareFault(destination, payloads[at]) == Some(failure)
    ensures FirstUnfit(payloads, at, failure)
    ensures !Fit(payloads[at])
  {
    forall i | 0 <= i <= at
      ensures PrepareFault(destination, payloads[i]) != Some(Unsafe(Traversal))
      ensures PrepareFault(destination, payloads[i]) == None ==> Fit(payloads[i])
    {
      assert Sound(Members(payloads)[i]);
      TraversalBranchIsDead(destination, payloads[i]);
    }
  }

  lemma PlacesAndData(destination: Segs, payloads: seq<Payload>)
    requires AllPlain(destination) && AllSound(Members(payloads)) && AllPreparable(payloads)
    ensures AllMembers(payloads)
    ensures forall i :: 0 <= i < |payloads| ==>
              var p := Prepare(destination, payloads)[i];
              && Fit(payloads[i]) && p.kind == payloads[i].member.kind && p.target == Place(destination, payloads[i].member)
              && (p.kind == File ==> payloads[i].data == Some(p.data))
  {
    forall i | 0 <= i < |payloads|
      ensures PrepareOne(destination, payloads[i]).target == Place(destination, payloads[i].member)
    {
      assert Sound(Members(payloads)[i]);
      AcceptedPathIsContained(destination, payloads[i].member.path);
    }
  }

  lemma PreparedIsPayloads(t: Tree, outside: Tree, destination: Segs, payloads: seq<Payload>)
    requires AllPlain(destination) && AllSound(Members(payloads)) && AllPreparable(payloads)
    requires Holds(t, outside, destination, Prepare(destination, payloads)) && ConflictFree(destination, Prepare(destination, payloads))
    ensures AllMembers(payloads) && HoldsPayloads(t, destination, payloads)
  {
    PlacesAndData(destination, payloads);
    forall q, data | Above(destination, q)
      ensures q in t && t[q] == FileEntry(data) <==> SomeFile(destination, payloads, q, data)
    {
      FilesAgree(t, outside, destination, payloads, q, data);
    }
    forall q | Above(destination, q)
      ensures q in t && t[q] == Dir <==> q == destination || SomeWay(destination, payloads, q)
    {
      DirectoriesAgree(t, outside, destination, payloads, q);
    }
  }

  lemma FilesAgree(t: Tree, outside: Tree, destination: Segs, payloads: seq<Payload>, q: Segs, data: Bytes)
    requires AllPlain(destination) && AllSound(Members(payloads)) && AllPreparable(payloads) && AllMembers(payloads)
    requires Holds(t, outside, destination, Prepare(destination, payloads)) && Above(destination, q)
    ensures q in t && t[q] == FileEntry(data) <==> SomeFile(destination, payloads, q, data)
  {
    PlacesAndData(destination, payloads);
    var prepared := Prepare(destination, payloads);
    if FileAt(q, data, prepared) {
      var i :| 0 <= i < |prepared| && prepared[i].kind == File && prepared[i].target == q && prepared[i].data == data;
      assert IsFileMember(destination, payloads[i], q, data);
      assert Implied(q, prepared);
    }
    if SomeFile(destination, payloads, q, data) {
      var i :| 0 <= i < |payloads| && IsFileMember(destination, payloads[i], q, data);
      assert prepared[i].kind == File && prepared[i].target == q && prepared[i].data == data;
      assert Implied(q, prepared);
    }
  }

  lemma DirectoriesAgree(t: Tree, outside: Tree, destination: Segs, payloads: seq<Payload>, q: Segs)
    requires AllPlain(destination) && AllSound(Members(payloads)) && AllPreparable(payloads) && AllMembers(payloads)
    requires Holds(t, outside, destination, Prepare(destination, payloads)) && ConflictFree(destination, Prepare(destination, payloads))
    requires Above(destination, q)
    ensures q in t && t[q] == Dir <==> q == destination || SomeWay(destination, payloads, q)
  {
    PlacesAndData(destination, payloads);
    var prepared := Prepare(destination, payloads);
    if SomeWay(destination, payloads, q) {
      var i :| 0 <= i < |payloads| && OnTheWay(destination, payloads[i], q);
      assert Above(q, prepared[i].target);
      NoFileOnTheWay(destination, payloads, q, i);
    } else if q != destination && Implied(q, prepared) {
      var i :| 0 <= i < |prepared| && Above(q, prepared[i].target);
      assert !OnTheWay(destination, payloads[i], q);
      assert FileAt(q, prepared[i].data, prepared);
    }
    if q in t && t[q] != Dir {
      assert FileAt(q, t[q].data, prepared);
    }
  }

  /** No file is at a place on the way to a member. */
  lemma NoFileOnTheWay(destination: Segs, payloads: seq<Payload>, q: Segs, i: nat)
    requires AllPlain(destination) && AllSound(Members(payloads)) && AllPreparable(payloads) && AllMembers(payloads)
    requires ConflictFree(destination, Prepare(destination, payloads))
    requires i < |payloads| && OnTheWay(destination, payloads[i], q)
    ensures forall data :: !FileAt(q, data, Prepare(destination, payloads))
  {
    PlacesAndData(destination, payloads);
    var prepared := Prepare(destination, payloads);
    forall k | 0 <= k < |prepared| && prepared[k].kind == File ensures prepared[k].target != q {
      if k != i { assert !Above(prepared[k].target, prepared[i].target); }
    }
  }

  /** Extraction is all or nothing.  Success fixes the whole tree and the byte budget; failure
      leaves an existing root as it was, and no root where there was none (as long as the
      removal itself works).  On a healthy disk the inputs alone decide which it is. */
  method ExtractArchiveMembers(disk: Disk, destination: Segs, payloads: seq<Payload>, maxMembers: Num, maxBytes: Num)
    returns (outcome: Outcome, removed: bool)
    requires WellFormed(disk.tree) && destination != [] && AllPlain(destination)
    modifies disk
    ensures outcome.Extracted? ==>
              && Extractable(destination, payloads, maxMembers, maxBytes)
              && destination !in old(disk.tree)
              && BytesWritten(Prepare(destination, payloads)) <= maxBytes.value
              && exists outside :: WithDirs(old(disk.tree), outside, Parent(destination))
                                && Holds(disk.tree, outside, destination, Prepare(destination, payloads))
    // The same without the prepare step: every file member's bytes at its place, and no more.
    ensures outcome.Extracted? ==>
              (forall i :: 0 <= i < |payloads| ==> Fit(payloads[i])) && HoldsPayloads(disk.tree, destination, payloads)
    // Which failure it is: the admission's, the first unfit payload's, or a refused write.
    ensures !LimitsValid(maxMembers, maxBytes) || |payloads| > maxMembers.value ==> outcome == Failed(Unsafe(Limit))
    ensures LimitsValid(maxMembers, maxBytes) && |payloads| <= maxMembers.value && !Admissible(Members(payloads), maxBytes.value) ==>
              && outcome.Failed? && outcome.failure.Unsafe?
              && exists k :: FirstFault(Members(payloads), maxBytes.value, k, outcome.failure.code)
    ensures LimitsValid(maxMembers, maxBytes) && |payloads| <= maxMembers.value && Admissible(Members(payloads), maxBytes.value) ==>
              if forall i :: 0 <= i < |payloads| ==> Fit(payloads[i]) then outcome.Extracted? || outcome == Failed(WriteFailed)
              else outcome.Failed? && exists k :: FirstUnfit(payloads, k, outcome.failure)
    ensures outcome.Failed? && destination in old(disk.tree) ==> disk.tree == old(disk.tree)
    ensures outcome.Failed? && destination !in old(disk.tree) && removed ==>
              Cleaned(old(disk.tree), disk.tree, destination)
    ensures disk.healthy ==> removed
    ensures disk.healthy ==>
              (outcome.Extracted? <==>
                && Extractable(destination, payloads, maxMembers, maxBytes)
                && destination !in old(disk.tree) && Passable(old(disk.tree), Parent(destination)))
  {
    ghost var before := disk.tree;
    removed := true;
    NothingAdded(before, destination);
    FailedParents(before, before, destination);
    var verdict, _ := ValidateArchiveMembers(Members(payloads), maxMembers, maxBytes);
    if verdict.Rejected? {
      return Failed(Unsafe(verdict.code)), true;
    }
    ReadyWhenPrepared(destination, payloads);
    var fault, prepared, at := PrepareAll(destination, payloads);
    FitWhenPrepared(destination, payloads);
    if fault.Some? {
      UnfitReason(destination, payloads, at, fault.value);
      return Failed(fault.value), true;
    }
    var ok := disk.MakeDirs(Parent(destination));
    ghost var outside := disk.tree;
    assert Above(Parent(destination), Parent(destination));
    FailedParents(before, outside, destination);
    if !ok {
      return Failed(WriteFailed), true;
    }
    ok := disk.MakeDir(destination);
    if !ok {
      RootTaken(before, outside, destination);
      return Failed(WriteFailed), true;
    }
    FreshRoot(before, outside, disk.tree, destination);
    ok := WriteAll(disk, outside, destination, prepared);
    if !ok {
      removed := disk.RemoveAll(destination);
      if removed { CleanedUp(before, outside, disk.tree, destination); }
      return Failed(WriteFailed), removed;
    }
    WrittenWithinBudget(destination, payloads);
    PreparedIsPayloads(disk.tree, outside, destination, payloads);
    PlacesAndData(destination, payloads);
    return Extracted, true;
  }

  /** What the inputs must be for extraction to go through: admissible members within the
      limits, no links, payloads of the declared sizes, and no file in another member's way. */
  ghost predicate Extractable(destination: Segs, payloads: seq<Payload>, maxMembers: Num, maxBytes: Num) {
    && LimitsValid(maxMembers, maxBytes) && |payloads| <= maxMembers.value
    && Admissible(Members(payloads), maxBytes.value)
    && AllMembers(payloads) && AllPreparable(payloads)
    && ConflictFree(destination, Prepare(destination, payloads))
  }

  /** An exclusive create below existing directories can only be refused by an occupant. */
  lemma RootTaken(before: Tree, outside: Tree, destination: Segs)
    requires destination != [] && WithDirs(before, outside, Parent(destination))
    requires Passable(before, Parent(destination))
    ensures IsDir(outside, Parent(destination))
    ensures destination in outside <==> destination in before
  {
    assert Above(Parent(destination), Parent(destination));
  }
}
