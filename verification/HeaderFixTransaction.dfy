/** The header-fix transaction (packages/cli/src/fix.ts): capture the planned files, let the
    mutation and the checks do what they like, and put every planned path back when a check
    fails.  The restores run side by side, so they are taken here in any order. */
module HeaderFixTransaction {
  import opened Options
  import opened Paths

  type Bytes = seq<bv8>

  const MAX_FIX_SNAPSHOT_BYTES: int := 1024 * 1024
  const MODE_BITS: int := 512

  datatype Entry = File(bytes: Bytes, mode: nat) | Directory | SymbolicLink | Special

  /** What is at each resolved path; a path outside the map does not exist. */
  type Tree = map<Segs, Entry>

  datatype Saved = Saved(bytes: Bytes, mode: nat)

  datatype Snapshot = Snapshot(path: Segs, saved: Option<Saved>)

  /** `path` holds what the snapshot says: the bytes and permission bits, or nothing at all. */
  predicate AsCaptured(tree: Tree, s: Snapshot) {
    if s.saved.Some? then s.path in tree && tree[s.path] == File(s.saved.value.bytes, s.saved.value.mode)
    else s.path !in tree
  }

  // ---------------------------------------------------------------------
  // Capture
  // ---------------------------------------------------------------------

  /** What lies at the path is something a snapshot can hold. */
  predicate Capturable(tree: Tree, path: Segs) {
    path !in tree || (tree[path].File? && |tree[path].bytes| <= MAX_FIX_SNAPSHOT_BYTES)
  }

  function Captured(tree: Tree, path: Segs): Snapshot
    requires Capturable(tree, path)
  {
    Snapshot(path, if path !in tree then None else Some(Saved(tree[path].bytes, tree[path].mode % MODE_BITS)))
  }

  predicate Below(root: Segs, path: Segs) {
    root <= path && root != path
  }

  /** The snapshots of the first `n` planned files. */
  ghost predicate CapturedFrom(tree: Tree, root: Segs, planned: seq<string>, n: nat, snapshots: seq<Snapshot>) {
    && n <= |planned| && |snapshots| == n
    && forall i :: 0 <= i < n ==> CapturedAt(tree, root, planned[i], snapshots[i])
  }

  ghost predicate CapturedAt(tree: Tree, root: Segs, file: string, s: Snapshot) {
    var path := Resolve(root, file);
    Below(root, path) && Capturable(tree, path) && s == Captured(tree, path)
  }

  /** The planned file lies strictly below the root, and there is nothing, or a regular file of at
      most 1 MiB. */
  predicate CanBeTaken(tree: Tree, root: Segs, file: string) {
    var path := Resolve(root, file);
    && |root| < |path| && path[..|root|] == root
    && (path in tree ==> tree[path].File? && |tree[path].bytes| < 1_048_577)
  }

  /** The snapshot has the bytes and permission bits of the planned file, or says it is absent. */
  predicate TakenFrom(tree: Tree, root: Segs, file: string, s: Snapshot) {
    && s.path == Resolve(root, file)
    && (s.saved.Some? <==> s.path in tree)
    && (s.path in tree ==>
          && tree[s.path].File? && s.saved.value.bytes == tree[s.path].bytes
          && s.saved.value.mode < 512 && (tree[s.path].mode - s.saved.value.mode) % 512 == 0)
  }

  lemma CaptureAsTold(tree: Tree, root: Segs, file: string)
    ensures Below(root, Resolve(root, file)) && Capturable(tree, Resolve(root, file)) <==> CanBeTaken(tree, root, file)
    ensures Capturable(tree, Resolve(root, file)) ==> TakenFrom(tree, root, file, Captured(tree, Resolve(root, file)))
  {
    var path := Resolve(root, file);
    if root <= path && |root| == |path| { assert root == path; }
  }

  /** A relative file stays plain when resolved against a plain root. */
  lemma {:induction false} ResolvePlain(root: Segs, file: string)
    requires AllPlain(root)
    ensures AllPlain(Resolve(root, file))
  {
    FoldPlain(if StartsWith(file, "/") then [] else root, Split(file));
  }

  lemma {:induction false} FoldPlain(stack: Segs, segs: Segs)
    requires AllPlain(stack) && forall i :: 0 <= i < |segs| ==> '/' !in segs[i]
    ensures AllPlain(Fold(stack, segs, false))
    decreases |segs|
  {
    if segs != [] {
      FoldPlain(Push(stack, segs[0], false), segs[1..]);
    }
  }

  /** The textual guard of the capture admits exactly the paths strictly below the root. */
  lemma GuardIsBelow(root: Segs, file: string)
    requires AllPlain(root)
    ensures var rel := Relative(root, Resolve(root, file));
            rel != "" && !LooksOutside(rel) <==> Below(root, Resolve(root, file))
  {
    ResolvePlain(root, file);
    RelativeDecidesPrefix(root, Resolve(root, file));
  }

  /** The guard on the relative path. */
  method IsInside(root: Segs, file: string) returns (inside: bool)
    requires AllPlain(root)
    ensures inside <==> Below(root, Resolve(root, file))
  {
    var rel := Relative(root, Resolve(root, file));
    GuardIsBelow(root, file);
    inside := rel != "" && !LooksOutside(rel);
  }

  /** `captureHeaderFixSnapshots`; `fails` says for which files the system reports an error. */
  method CaptureHeaderFixSnapshots(tree: Tree, root: Segs, planned: seq<string>, fails: nat -> bool)
    returns (snapshots: Option<seq<Snapshot>>)
    requires AllPlain(root)
    ensures snapshots.Some? ==> CapturedFrom(tree, root, planned, |planned|, snapshots.value)
    ensures snapshots.Some? <==>
              forall i :: 0 <= i < |planned| ==>
                !fails(i) && Below(root, Resolve(root, planned[i])) && Capturable(tree, Resolve(root, planned[i]))
    ensures snapshots.Some? <==> forall i :: 0 <= i < |planned| ==> !fails(i) && CanBeTaken(tree, root, planned[i])
    ensures snapshots.Some? ==>
              |snapshots.value| == |planned| && forall i :: 0 <= i < |planned| ==> TakenFrom(tree, root, planned[i], snapshots.value[i])
  {
    forall file: string
      ensures Below(root, Resolve(root, file)) && Capturable(tree, Resolve(root, file)) <==> CanBeTaken(tree, root, file)
      ensures Capturable(tree, Resolve(root, file)) ==> TakenFrom(tree, root, file, Captured(tree, Resolve(root, file)))
    {
      CaptureAsTold(tree, root, file);
    }
    var taken: seq<Snapshot> := [];
    for i := 0 to |planned|
      invariant CapturedFrom(tree, root, planned, i, taken)
      invariant forall k :: 0 <= k < i ==> !fails(k)
    {
      var path := Resolve(root, planned[i]);
      var inside := IsInside(root, planned[i]);
      if !inside || fails(i) || !Capturable(tree, path) {
        return None;
      }
      taken := taken + [Captured(tree, path)];
    }
    assert forall i :: 0 <= i < |planned| ==> CapturedAt(tree, root, planned[i], taken[i]);
    snapshots := Some(taken);
  }

  // ---------------------------------------------------------------------
  // Rollback
  // ---------------------------------------------------------------------

  /** Snapshots of one path say the same. */
  ghost predicate Consistent(snapshots: seq<Snapshot>) {
    forall i, j :: 0 <= i < |snapshots| && 0 <= j < |snapshots| && snapshots[i].path == snapshots[j].path ==>
      snapshots[i] == snapshots[j]
  }

  /** A snapshot within the limits a restore checks again. */
  predicate Restorable(s: Snapshot) {
    s.saved.Some? ==> |s.saved.value.bytes| <= MAX_FIX_SNAPSHOT_BYTES && s.saved.value.mode < MODE_BITS
  }

  ghost predicate AllRestorable(snapshots: seq<Snapshot>) {
    forall i :: 0 <= i < |snapshots| ==> Restorable(snapshots[i])
  }

  /** Whatever a capture returns satisfies both. */
  lemma CapturedAreConsistent(tree: Tree, root: Segs, planned: seq<string>, snapshots: seq<Snapshot>)
    requires CapturedFrom(tree, root, planned, |planned|, snapshots)
    ensures Consistent(snapshots) && AllRestorable(snapshots)
  {
    assert forall i :: 0 <= i < |snapshots| ==> CapturedAt(tree, root, planned[i], snapshots[i]);
  }

  predicate Occupied(tree: Tree, path: Segs) {
    path in tree && tree[path].Directory?
  }

  /** One restore succeeds exactly when nothing fails and no directory is in the way. */
  predicate Restores(tree: Tree, s: Snapshot, fault: bool) {
    !fault && Restorable(s) && !Occupied(tree, s.path)
  }

  predicate SameElsewhere(a: Tree, b: Tree, path: Segs) {
    a - {path} == b - {path}
  }

  class Workspace {
    var tree: Tree

    /** A temporary file renamed over the path, or an unlink that ignores a missing file. */
    method Restore(s: Snapshot, fault: bool) returns (ok: bool)
      modifies this
      ensures ok <==> Restores(old(tree), s, fault)
      ensures ok ==> AsCaptured(tree, s) && SameElsewhere(old(tree), tree, s.path)
      ensures !ok ==> tree == old(tree)
    {
      ok := false;
      if s.saved.Some? {
        var saved := s.saved.value;
        if |saved.bytes| > MAX_FIX_SNAPSHOT_BYTES || saved.mode >= MODE_BITS || fault || Occupied(tree, s.path) {
          return;
        }
        tree := tree[s.path := File(saved.bytes, saved.mode)];
      } else {
        if fault || Occupied(tree, s.path) {
          return;
        }
        tree := tree - {s.path};
      }
      ok := true;
    }

    /** `rollbackHeaderFixSnapshots`: every restore is attempted, in whatever order the restores
        finish, and each outcome depends on nothing but its own path and its own fault. */
    method RollbackHeaderFixSnapshots(snapshots: seq<Snapshot>, fails: nat -> bool) returns (outcomes: seq<bool>)
      requires Consistent(snapshots)
      modifies this
      ensures |outcomes| == |snapshots|
      ensures forall i :: 0 <= i < |snapshots| ==> (outcomes[i] <==> Restores(old(tree), snapshots[i], fails(i)))
      ensures forall i :: 0 <= i < |snapshots| && outcomes[i] ==> AsCaptured(tree, snapshots[i])
      ensures OthersKept(snapshots, outcomes, old(tree), tree)
    {
      ghost var before := tree;
      outcomes := seq(|snapshots|, _ => false);
      var pending := set i {:trigger snapshots[i]} | 0 <= i < |snapshots|;
      while pending != {}
        invariant |outcomes| == |snapshots|
        invariant forall i :: i in pending ==> 0 <= i < |snapshots| && !outcomes[i]
        invariant forall i :: 0 <= i < |snapshots| && i !in pending ==> (outcomes[i] <==> Restores(before, snapshots[i], fails(i)))
        invariant Restored(snapshots, outcomes, tree)
        invariant OthersKept(snapshots, outcomes, before, tree)
        decreases pending
      {
        var i :| i in pending;
        pending := pending - {i};
        ghost var was, done := tree, outcomes;
        OccupiedKept(snapshots, outcomes, before, tree, snapshots[i].path);
        var ok := Restore(snapshots[i], fails(i));
        outcomes := outcomes[i := ok];
        if ok {
          OneMoreRestored(snapshots, done, was, tree, i);
          OneMoreKept(snapshots, done, before, was, tree, i);
        } else {
          assert outcomes == done;
        }
      }
    }

    /** `verifyOrRollbackHeaderFix`.  Check `i` leaves `effects(i)` behind, which may be any tree
        at all, and passes or throws. */
    method VerifyOrRollbackHeaderFix(snapshots: seq<Snapshot>, checks: seq<Phase>, passes: nat -> bool,
                                     effects: nat -> Tree, fails: nat -> bool)
      returns (verdict: Verdict, ran: nat)
      requires Consistent(snapshots)
      modifies this
      // The checks run are a passing prefix, and one failure unless all pass.
      ensures ran <= |checks| && forall k: nat :: k < ran && (verdict.RolledBack? ==> k < ran - 1) ==> passes(k)
      ensures verdict.Kept? ==> ran == |checks| && (if ran == 0 then tree == old(tree) else tree == effects(ran - 1))
      ensures verdict.RolledBack? ==> ran > 0 && !passes(ran - 1) && verdict.phase == checks[ran - 1]
      // Success of the rollback is exact, and then every planned path is as captured.
      ensures verdict.RolledBack? ==>
                (verdict.succeeded <==>
                 forall i :: 0 <= i < |snapshots| ==> Restores(effects(ran - 1), snapshots[i], fails(i)))
      ensures verdict.RolledBack? && verdict.succeeded ==> forall i :: 0 <= i < |snapshots| ==> AsCaptured(tree, snapshots[i])
      // One failed restore stops no other.
      ensures verdict.RolledBack? ==>
                forall i :: 0 <= i < |snapshots| && Restores(effects(ran - 1), snapshots[i], fails(i)) ==> AsCaptured(tree, snapshots[i])
      // Nothing but planned paths is touched by the rollback.
      ensures verdict.RolledBack? ==>
                forall p :: !Mentions(snapshots, p) ==> SameAt(effects(ran - 1), tree, p)
    {
      ran := 0;
      while ran < |checks|
        invariant ran <= |checks| && forall k: nat :: k < ran ==> passes(k)
        invariant if ran == 0 then tree == old(tree) else tree == effects(ran - 1)
      {
        tree := effects(ran);
        ran := ran + 1;
        if !passes(ran - 1) {
          var outcomes := RollbackHeaderFixSnapshots(snapshots, fails);
          return RolledBack(AllTrue(outcomes), checks[ran - 1]), ran;
        }
      }
      verdict := Kept;
    }
  }

  datatype Phase = Tests | Rescan

  datatype Verdict = Kept | RolledBack(succeeded: bool, phase: Phase)

  predicate AllTrue(outcomes: seq<bool>) {
    forall i :: 0 <= i < |outcomes| ==> outcomes[i]
  }

  /** A path holds again what it held: the same bytes, the same permission bits, or nothing. */
  predicate BackAt(before: Tree, after: Tree, path: Segs) {
    && (path in after <==> path in before)
    && (path in before && before[path].File? ==> after[path] == File(before[path].bytes, before[path].mode % MODE_BITS))
  }

  /** What applying the fix comes to: it throws, or it says how many files it changed; either way
      it leaves some tree behind. */
  datatype Applied = Threw(left: Tree) | Changed(left: Tree, count: nat)

  datatype FixOutcome = CaptureFailed | ApplyFailed | NothingFixed | Checked(verdict: Verdict)

  /** The whole fix: capture when checks are requested, apply, and run the checks when something
      changed.  If a check fails and the rollback reports success, every planned file is what it
      was before the fix.  An apply that throws is not rolled back: what it left stays. */
  method FixWithChecks(w: Workspace, root: Segs, planned: seq<string>, applied: Applied, checks: seq<Phase>,
                       passes: nat -> bool, effects: nat -> Tree, readFails: nat -> bool, restoreFails: nat -> bool)
    returns (outcome: FixOutcome)
    requires AllPlain(root)
    modifies w
    ensures outcome == CaptureFailed ==> checks != [] && w.tree == old(w.tree)
    ensures outcome == CaptureFailed <==>
              checks != [] && exists i :: 0 <= i < |planned| && !CanCapture(old(w.tree), root, planned[i], readFails(i))
    ensures outcome == ApplyFailed <==> outcome != CaptureFailed && applied.Threw?
    ensures outcome == NothingFixed <==> outcome != CaptureFailed && applied.Changed? && applied.count == 0
    ensures outcome == ApplyFailed || outcome == NothingFixed ==> w.tree == applied.left
    // What was applied is kept exactly when every check passes.
    ensures outcome.Checked? ==> (outcome.verdict.Kept? <==> forall k: nat :: k < |checks| ==> passes(k))
    ensures outcome.Checked? && outcome.verdict.Kept? ==>
              w.tree == if checks == [] then applied.left else effects(|checks| - 1)
    ensures outcome.Checked? && outcome.verdict.RolledBack? && outcome.verdict.succeeded ==>
              forall i :: 0 <= i < |planned| ==>
                Below(root, Resolve(root, planned[i])) && BackAt(old(w.tree), w.tree, Resolve(root, planned[i]))
    ensures outcome.Checked? && outcome.verdict.RolledBack? && !outcome.verdict.succeeded ==>
              exists i :: 0 <= i < |planned| && MayFail(effects, |checks|, Resolve(root, planned[i]), restoreFails(i))
  {
    ghost var before := w.tree;
    var snapshots: seq<Snapshot> := [];
    if checks != [] {
      var captured := CaptureHeaderFixSnapshots(w.tree, root, planned, readFails);
      if captured == None {
        return CaptureFailed;
      }
      snapshots := captured.value;
      CapturedAreConsistent(before, root, planned, snapshots);
    }
    w.tree := applied.left;
    if applied.Threw? {
      return ApplyFailed;
    }
    if applied.count == 0 {
      return NothingFixed;
    }
    var verdict := Check(w, before, root, planned, snapshots, checks, passes, effects, restoreFails);
    outcome := Checked(verdict);
  }

  /** A planned file can be captured. */
  predicate CanCapture(tree: Tree, root: Segs, file: string, fault: bool) {
    !fault && Below(root, Resolve(root, file)) && Capturable(tree, Resolve(root, file))
  }

  /** The checks, with the snapshots of the tree before the fix. */
  method Check(w: Workspace, ghost before: Tree, root: Segs, planned: seq<string>, snapshots: seq<Snapshot>, checks: seq<Phase>,
               passes: nat -> bool, effects: nat -> Tree, restoreFails: nat -> bool)
    returns (verdict: Verdict)
    requires checks != [] ==> CapturedFrom(before, root, planned, |planned|, snapshots) && Consistent(snapshots)
    requires checks == [] ==> snapshots == []
    modifies w
    ensures verdict.Kept? <==> forall k: nat :: k < |checks| ==> passes(k)
    ensures verdict.Kept? ==> w.tree == if checks == [] then old(w.tree) else effects(|checks| - 1)
    ensures verdict.RolledBack? && verdict.succeeded ==>
              forall i :: 0 <= i < |planned| ==>
                Below(root, Resolve(root, planned[i])) && BackAt(before, w.tree, Resolve(root, planned[i]))
    ensures verdict.RolledBack? && !verdict.succeeded ==>
              exists i :: 0 <= i < |planned| && MayFail(effects, |checks|, Resolve(root, planned[i]), restoreFails(i))
  {
    var ran;
    verdict, ran := w.VerifyOrRollbackHeaderFix(snapshots, checks, passes, effects, restoreFails);
    if verdict.RolledBack? {
      assert forall i :: 0 <= i < |planned| ==> CapturedAt(before, root, planned[i], snapshots[i]);
      if !verdict.succeeded {
        var i :| 0 <= i < |snapshots| && !Restores(effects(ran - 1), snapshots[i], restoreFails(i));
        assert MayFail(effects, |checks|, Resolve(root, planned[i]), restoreFails(i));
      }
    }
  }

  /** The only two reasons a restore of a captured file does not work: an error from the system,
      or a check that put a directory there. */
  ghost predicate MayFail(effects: nat -> Tree, n: nat, path: Segs, fault: bool) {
    fault || exists k: nat :: k < n && Occupied(effects(k), path)
  }

  predicate SameAt(a: Tree, b: Tree, p: Segs) {
    (p in a <==> p in b) && (p in a ==> a[p] == b[p])
  }

  ghost predicate Restored(snapshots: seq<Snapshot>, outcomes: seq<bool>, tree: Tree)
    requires |outcomes| == |snapshots|
  {
    forall i :: 0 <= i < |snapshots| && outcomes[i] ==> AsCaptured(tree, snapshots[i])
  }

  ghost predicate Touched(snapshots: seq<Snapshot>, outcomes: seq<bool>, p: Segs)
    requires |outcomes| == |snapshots|
  {
    exists i :: 0 <= i < |snapshots| && outcomes[i] && snapshots[i].path == p
  }

  ghost predicate Mentions(snapshots: seq<Snapshot>, p: Segs) {
    exists i :: 0 <= i < |snapshots| && snapshots[i].path == p
  }

  ghost predicate OthersKept(snapshots: seq<Snapshot>, outcomes: seq<bool>, before: Tree, tree: Tree)
    requires |outcomes| == |snapshots|
  {
    forall p :: !Touched(snapshots, outcomes, p) ==> SameAt(before, tree, p)
  }

  /** A directory stands in the way now exactly when it did at the start: a restored path holds
      a file or nothing. */
  lemma OccupiedKept(snapshots: seq<Snapshot>, outcomes: seq<bool>, before: Tree, tree: Tree, p: Segs)
    requires |outcomes| == |snapshots|
    requires Restored(snapshots, outcomes, tree) && OthersKept(snapshots, outcomes, before, tree)
    requires forall i :: 0 <= i < |snapshots| && outcomes[i] ==> !Occupied(before, snapshots[i].path)
    ensures Occupied(before, p) <==> Occupied(tree, p)
  {
    if Touched(snapshots, outcomes, p) {
      var i :| 0 <= i < |snapshots| && outcomes[i] && snapshots[i].path == p;
      assert AsCaptured(tree, snapshots[i]);
    } else {
      assert SameAt(before, tree, p);
    }
  }

  lemma OneMoreRestored(snapshots: seq<Snapshot>, outcomes: seq<bool>, was: Tree, tree: Tree, i: nat)
    requires |outcomes| == |snapshots| && i < |snapshots| && Consistent(snapshots)
    requires Restored(snapshots, outcomes, was)
    requires AsCaptured(tree, snapshots[i]) && SameElsewhere(was, tree, snapshots[i].path)
    ensures Restored(snapshots, outcomes[i := true], tree)
  {
    forall k | 0 <= k < |snapshots| && outcomes[i := true][k] ensures AsCaptured(tree, snapshots[k]) {
      if snapshots[k].path == snapshots[i].path {
        assert snapshots[k] == snapshots[i];
      } else {
        assert outcomes[k];
        ElsewhereAt(was, tree, snapshots[i].path, snapshots[k].path);
      }
    }
  }

  lemma ElsewhereAt(a: Tree, b: Tree, path: Segs, p: Segs)
    requires SameElsewhere(a, b, path) && p != path
    ensures SameAt(a, b, p)
  {
    assert p in a <==> p in a - {path};
    assert p in b <==> p in b - {path};
    if p in a {
      assert (a - {path})[p] == (b - {path})[p];
    }
  }

  lemma OneMoreKept(snapshots: seq<Snapshot>, outcomes: seq<bool>, before: Tree, was: Tree, tree: Tree, i: nat)
    requires |outcomes| == |snapshots| && i < |snapshots| && !outcomes[i]
    requires OthersKept(snapshots, outcomes, before, was)
    requires SameElsewhere(was, tree, snapshots[i].path)
    ensures OthersKept(snapshots, outcomes[i := true], before, tree)
  {
    var now := outcomes[i := true];
    forall p | !Touched(snapshots, now, p) ensures SameAt(before, tree, p) {
      assert now[i];
      assert forall k :: 0 <= k < |snapshots| && outcomes[k] ==> now[k];
      assert !Touched(snapshots, outcomes, p);
      assert SameAt(before, was, p);
      ElsewhereAt(was, tree, snapshots[i].path, p);
    }
  }
}
