/** Sigstore attestation of a release record (packages/cli/src/record-sigstore.ts) as a
    fault-injected run: any step may throw, and the catch block must leave the output
    directory and the reported transparency-log outcome in step with what happened. */
module Attestation {
  import opened Options

  type Bytes = seq<bv8>

  const MAX_SIGSTORE_BUNDLE_BYTES: int := 8 * 1024 * 1024

  /** `.vgl-sigstore.json`, `.vgl-sigstore-binding.json`, `.vgl-sigstore-status.json`, and
      whatever else a directory may hold. */
  datatype Name = BundleName | BindingName | StatusName | Other

  datatype LogOutcome = NotAttempted | Unknown | Performed

  datatype Status = Pending | Verified(bundle: Bytes) | Incomplete(outcome: LogOutcome, recovered: Option<Bytes>)

  datatype Content = BundleFile(bytes: Bytes) | BindingFile(bytes: Bytes) | StatusFile(status: Status) | Torn

  /** The steps of the try block in order, then those of the catch block. */
  datatype Step =
    | Preflight | StoreReceipts | MakeParents | Claim | MakeStaging | WritePending
    | Sign | Canonicalize | WriteBundle | Verify | Bind | WriteBinding
    | RenameBundle | RenameBinding | RemoveStaging | WriteVerified | Report
    | RecoverBundle | WriteIncomplete | DropStaging | DropDestination

  /** Which steps throw. */
  type Faults = Step -> bool

  /** The milestones of the try block: nothing threw up to there. */
  predicate ClaimsOutput(fails: Faults) {
    !fails(Preflight) && !fails(StoreReceipts) && !fails(MakeParents) && !fails(Claim)
  }

  predicate ReachesSigner(fails: Faults) {
    ClaimsOutput(fails) && !fails(MakeStaging) && !fails(WritePending)
  }

  predicate Signs(fails: Faults) {
    ReachesSigner(fails) && !fails(Sign) && !fails(Canonicalize)
  }

  /** The bundle was renamed out of the staging directory. */
  predicate BundleOut(fails: Faults, signed: Bytes) {
    && Signs(fails) && |signed| <= MAX_SIGSTORE_BUNDLE_BYTES
    && !fails(WriteBundle) && !fails(Verify) && !fails(Bind) && !fails(WriteBinding) && !fails(RenameBundle)
  }

  predicate Publishes(fails: Faults) {
    && Signs(fails) && !fails(WriteBundle) && !fails(Verify) && !fails(Bind) && !fails(WriteBinding)
    && !fails(RenameBundle) && !fails(RenameBinding) && !fails(RemoveStaging) && !fails(WriteVerified) && !fails(Report)
  }

  // ---------------------------------------------------------------------
  // The output directory
  // ---------------------------------------------------------------------

  type Files = map<Name, Content>

  /** The two directories agree on every name but one. */
  ghost predicate SameBut(before: Files, after: Files, name: Name) {
    forall n :: n != name ==> (n in after <==> n in before) && (n in after ==> after[n] == before[n])
  }

  /** The output path: whether its parents exist, the directory there, and the private staging
      directory inside it. */
  class Output {
    var parents: bool
    var files: Option<Files>
    var staging: Option<Files>

    method CreateParents(fault: bool) returns (ok: bool)
      modifies this`parents
      ensures ok <==> !fault
      ensures ok ==> parents
      ensures old(parents) ==> parents
    {
      var partial: bool := *;
      ok := !fault;
      parents := parents || ok || partial;
    }

    /** Exclusive mkdir: an occupied path is left alone. */
    method Create(fault: bool) returns (ok: bool)
      modifies this`files, this`staging
      ensures ok <==> !fault && old(files).None?
      ensures ok ==> files == Some(map[]) && staging == None
      ensures !ok ==> files == old(files) && staging == old(staging)
    {
      ok := !fault && files.None?;
      if ok { files, staging := Some(map[]), None; }
    }

    method CreateStaging(fault: bool) returns (ok: bool)
      requires files.Some? && staging == None
      modifies this`staging
      ensures ok <==> !fault
      ensures staging == if ok then Some(map[]) else None
    {
      ok := !fault;
      if ok { staging := Some(map[]); }
    }

    /** `writeFile(..., { flag: "wx" })` into the staging directory. */
    method WriteStaged(name: Name, content: Content, fault: bool) returns (ok: bool)
      requires files.Some? && staging.Some? && name !in staging.value
      modifies this`staging
      ensures ok <==> !fault && staging.Some?
      ensures staging.Some?
      ensures ok ==> staging == Some(old(staging).value[name := content])
    {
      ok := !fault;
      staging := Some(staging.value[name := if ok then content else Torn]);
    }

    /** A write into the output directory, exclusive or not. */
    method Write(name: Name, content: Content, exclusive: bool, fault: bool) returns (ok: bool)
      requires files.Some?
      modifies this`files
      ensures files.Some?
      ensures SameBut(old(files).value, files.value, name)
      ensures ok <==> !fault && !(exclusive && name in old(files).value)
      ensures ok ==> files == Some(old(files).value[name := content])
      ensures !ok ==> files == old(files) || files == Some(old(files).value[name := Torn])
      ensures exclusive && name in old(files).value ==> files == old(files)
    {
      var torn: bool := *;
      ok := !fault && !(exclusive && name in files.value);
      if ok {
        files := Some(files.value[name := content]);
      } else if torn && !(exclusive && name in files.value) {
        files := Some(files.value[name := Torn]);
      }
    }

    /** Rename out of the staging directory. */
    method Publish(name: Name, fault: bool) returns (ok: bool)
      requires files.Some? && staging.Some? && name in staging.value
      modifies this`files, this`staging
      ensures files.Some? && staging.Some?
      ensures ok <==> !fault
      ensures ok ==> files == Some(old(files).value[name := old(staging).value[name]])
      ensures ok ==> staging == Some(old(staging).value - {name})
      ensures !ok ==> files == old(files) && staging == old(staging)
    {
      ok := !fault;
      if ok {
        files := Some(files.value[name := staging.value[name]]);
        staging := Some(staging.value - {name});
      }
    }

    method Unstage(fault: bool) returns (ok: bool)
      modifies this`staging
      ensures ok <==> !fault
      ensures ok ==> staging == None
      ensures old(staging) == None ==> staging == None
    {
      ok := !fault;
      if ok { staging := None; }
    }

    method Remove(fault: bool) returns (ok: bool)
      modifies this`files, this`staging
      ensures ok <==> !fault
      ensures ok ==> files == None && staging == None
    {
      ok := !fault;
      if ok { files, staging := None, None; }
    }
  }

  // ---------------------------------------------------------------------
  // The attestation
  // ---------------------------------------------------------------------

  /** The variables of the try block that the catch block reads. */
  datatype Progress = Progress(claimed: bool, networkAttempted: bool, bundle: Option<Bytes>, staged: bool, finished: bool, signerCalls: nat)

  const START: Progress := Progress(false, false, None, false, false, 0)

  /** What another process put at the output path. */
  const THEIRS: Files := map[Other := Torn]

  /** What a complete output directory holds. */
  function Complete(bundle: Bytes, binding: Bytes): Files {
    map[StatusName := StatusFile(Verified(bundle)), BundleName := BundleFile(bundle), BindingName := BindingFile(binding)]
  }

  /** From the claim to the call of the signer. */
  method ClaimOutput(out: Output, fails: Faults, appears: bool) returns (p: Progress)
    modifies out
    ensures p == START.(claimed := p.claimed, networkAttempted := p.networkAttempted, staged := p.staged)
    ensures p.claimed <==> old(out.files).None? && !appears && ClaimsOutput(fails)
    ensures p.networkAttempted <==> p.claimed && ReachesSigner(fails)
    ensures p.networkAttempted ==> p.staged
    ensures p.claimed ==> out.files.Some? && (p.staged <==> out.staging.Some?)
    ensures p.networkAttempted ==> out.files == Some(map[StatusName := StatusFile(Pending)]) && out.staging == Some(map[])
    ensures !p.claimed ==> !p.staged
    ensures !p.claimed ==>
              || (out.files == old(out.files) && out.staging == old(out.staging))
              || (appears && old(out.files).None? && out.files == Some(THEIRS))
    ensures old(out.parents) ==> out.parents
    ensures !fails(Preflight) && !fails(StoreReceipts) && !fails(MakeParents) && old(out.files).None? ==> out.parents
    ensures fails(Preflight) || fails(StoreReceipts) || old(out.files).Some? ==> out.parents == old(out.parents)
  {
    p := START;
    if fails(Preflight) || out.files.Some? {
      return;
    }
    if fails(StoreReceipts) {
      return;
    }
    var ok := out.CreateParents(fails(MakeParents));
    if !ok {
      return;
    }
    if appears {
      // Someone else creates the path between the check and the claim.
      out.files, out.staging := Some(THEIRS), None;
    }
    ok := out.Create(fails(Claim));
    if !ok {
      return;
    }
    p := p.(claimed := true);
    ok := out.CreateStaging(fails(MakeStaging));
    if !ok {
      return;
    }
    p := p.(staged := true);
    ok := out.Write(StatusName, StatusFile(Pending), true, fails(WritePending));
    if !ok {
      return;
    }
    p := p.(networkAttempted := true);
  }

  /** The state the signer is called in. */
  ghost predicate Claimed(files: Option<Files>, staging: Option<Files>) {
    files == Some(map[StatusName := StatusFile(Pending)]) && staging == Some(map[])
  }

  /** While a failure is possible, the output directory shows the bundle only if the signer
      returned it, never a torn one, and nothing but the three named files. */
  ghost predicate Honest(files: Files, bundle: Option<Bytes>) {
    && files.Keys <= {StatusName, BundleName, BindingName}
    && (BundleName in files ==> bundle.Some? && files[BundleName] == BundleFile(bundle.value))
  }

  /** The binding file is there, and whole, exactly when it should be. */
  predicate HasBinding(files: Files, binding: Bytes, there: bool) {
    (BindingName in files <==> there) && (BindingName in files ==> files[BindingName] == BindingFile(binding))
  }

  /** The output directory while publishing: what was renamed so far. */
  ghost predicate Publishing(files: Files, bundle: Bytes, binding: Bytes, bundleOut: bool, bindingOut: bool) {
    files == map[StatusName := StatusFile(Pending)]
             + (if bundleOut then map[BundleName := BundleFile(bundle)] else map[])
             + (if bindingOut then map[BindingName := BindingFile(binding)] else map[])
  }

  /** Fill the staging directory. */
  method Stage(out: Output, fails: Faults, signed: Bytes, binding: Bytes) returns (ok: bool)
    requires Claimed(out.files, out.staging)
    modifies out`staging
    ensures out.staging.Some?
    ensures ok <==> !fails(WriteBundle) && !fails(Verify) && !fails(Bind) && !fails(WriteBinding)
    ensures ok ==> out.staging == Some(map[BundleName := BundleFile(signed), BindingName := BindingFile(binding)])
  {
    ok := out.WriteStaged(BundleName, BundleFile(signed), fails(WriteBundle));
    if !ok || fails(Verify) || fails(Bind) {
      return false;
    }
    ok := out.WriteStaged(BindingName, BindingFile(binding), fails(WriteBinding));
  }

  /** Rename both files out and drop the staging directory. */
  method PublishStaged(out: Output, fails: Faults, signed: Bytes, binding: Bytes) returns (ok: bool)
    requires out.files == Some(map[StatusName := StatusFile(Pending)])
    requires out.staging == Some(map[BundleName := BundleFile(signed), BindingName := BindingFile(binding)])
    modifies out`files, out`staging
    ensures out.files.Some? && Honest(out.files.value, Some(signed))
    ensures BundleName in out.files.value <==> !fails(RenameBundle)
    ensures HasBinding(out.files.value, binding, !fails(RenameBundle) && !fails(RenameBinding))
    ensures StatusName in out.files.value
    ensures ok <==> !fails(RenameBundle) && !fails(RenameBinding) && !fails(RemoveStaging)
    ensures ok ==> out.staging == None && Publishing(out.files.value, signed, binding, true, true)
  {
    ok := out.Publish(BundleName, fails(RenameBundle));
    if !ok {
      return;
    }
    ok := out.Publish(BindingName, fails(RenameBinding));
    if !ok {
      return;
    }
    ok := out.Unstage(fails(RemoveStaging));
  }

  lemma CompleteAfterStatus(files: Files, signed: Bytes, binding: Bytes)
    requires Publishing(files, signed, binding, true, true)
    ensures files[StatusName := StatusFile(Verified(signed))] == Complete(signed, binding)
  {
  }

  lemma StatusKeepsHonest(before: Files, after: Files, bundle: Option<Bytes>)
    requires Honest(before, bundle) && SameBut(before, after, StatusName)
    ensures Honest(after, bundle)
  {
  }

  /** The last write and the report. */
  method Conclude(out: Output, fails: Faults, signed: Bytes, binding: Bytes) returns (ok: bool)
    requires out.files.Some? && Publishing(out.files.value, signed, binding, true, true)
    requires Honest(out.files.value, Some(signed))
    modifies out`files
    ensures out.files.Some? && Honest(out.files.value, Some(signed)) && BundleName in out.files.value
    ensures HasBinding(out.files.value, binding, true) && StatusName in out.files.value
    ensures ok <==> !fails(WriteVerified) && !fails(Report)
    ensures ok ==> out.files == Some(Complete(signed, binding))
  {
    ghost var before := out.files.value;
    CompleteAfterStatus(before, signed, binding);
    ok := out.Write(StatusName, StatusFile(Verified(signed)), false, fails(WriteVerified));
    StatusKeepsHonest(before, out.files.value, Some(signed));
    ok := ok && !fails(Report);
  }

  lemma PendingIsHonest(bundle: Option<Bytes>)
    ensures Honest(map[StatusName := StatusFile(Pending)], bundle)
  {
  }

  /** From the call of the signer to the end of the try block. */
  method SignAndPublish(out: Output, fails: Faults, signed: Bytes, binding: Bytes, start: Progress) returns (p: Progress)
    requires start == Progress(true, true, None, true, false, 0)
    requires Claimed(out.files, out.staging)
    requires ReachesSigner(fails)
    modifies out`files, out`staging
    ensures p == start.(bundle := p.bundle, staged := p.staged, finished := p.finished, signerCalls := 1)
    ensures p.bundle == if Signs(fails) then Some(signed) else None
    ensures p.finished <==> Publishes(fails) && |signed| <= MAX_SIGSTORE_BUNDLE_BYTES
    ensures out.files.Some? && Honest(out.files.value, p.bundle)
    ensures BundleName in out.files.value <==> BundleOut(fails, signed)
    ensures HasBinding(out.files.value, binding, BundleOut(fails, signed) && !fails(RenameBinding))
    ensures StatusName in out.files.value
    ensures p.staged <== out.staging.Some?
    ensures p.finished ==> out.files == Some(Complete(signed, binding)) && out.staging == None
  {
    p := start.(signerCalls := 1);
    PendingIsHonest(None);
    PendingIsHonest(Some(signed));
    if fails(Sign) || fails(Canonicalize) {
      return;
    }
    p := p.(bundle := Some(signed));
    if |signed| > MAX_SIGSTORE_BUNDLE_BYTES {
      return;
    }
    var ok := Stage(out, fails, signed, binding);
    if !ok {
      return;
    }
    ok := PublishStaged(out, fails, signed, binding);
    if !ok {
      return;
    }
    p := p.(staged := false);
    ok := Conclude(out, fails, signed, binding);
    p := p.(finished := ok);
  }

  /** The whole bundle is in the directory. */
  predicate Available(files: Files, bundle: Bytes) {
    BundleName in files && files[BundleName] == BundleFile(bundle)
  }

  /** What the catch block does to the directory: nothing but the status, and the bundle when the
      signer returned one that is not there yet; that write may tear the file. */
  ghost predicate RecoveredFrom(before: Files, after: Files, bundle: Option<Bytes>, fails: Faults) {
    && (forall n :: n != BundleName && n != StatusName ==> (n in after <==> n in before) && (n in after ==> after[n] == before[n]))
    && (StatusName in before ==> StatusName in after)
    && (BundleName in before ==> BundleName in after && after[BundleName] == before[BundleName])
    && (BundleName in after && BundleName !in before ==>
          bundle.Some? && (after[BundleName] == BundleFile(bundle.value) || (fails(RecoverBundle) && after[BundleName] == Torn)))
  }

  /** What the directory shows after a failure of the signer or later. */
  ghost predicate Shows(files: Files, performed: bool, signed: Bytes, binding: Bytes, fails: Faults) {
    && StatusName in files && files.Keys <= {StatusName, BundleName, BindingName}
    && (BundleName in files ==>
          && performed
          && (files[BundleName] == BundleFile(signed)
              || (fails(RecoverBundle) && !BundleOut(fails, signed) && files[BundleName] == Torn)))
    && HasBinding(files, binding, BundleOut(fails, signed) && !fails(RenameBinding))
  }

  lemma RecoveredShows(before: Files, after: Files, bundle: Option<Bytes>, fails: Faults, signed: Bytes, binding: Bytes)
    requires Honest(before, bundle) && RecoveredFrom(before, after, bundle, fails) && StatusName in before
    requires HasBinding(before, binding, BundleOut(fails, signed) && !fails(RenameBinding))
    requires BundleName in before <==> BundleOut(fails, signed)
    requires bundle.Some? ==> bundle.value == signed
    ensures Shows(after, bundle.Some?, signed, binding, fails)
  {
  }

  predicate NoneFails(fails: Faults, steps: set<Step>) {
    forall s :: s in steps ==> !fails(s)
  }

  /** The milestones, told from the steps. */
  lemma MilestonesAsTold(fails: Faults)
    ensures ReachesSigner(fails) <==> NoneFails(fails, {Preflight, StoreReceipts, MakeParents, Claim, MakeStaging, WritePending})
    ensures Publishes(fails) <==>
            forall s: Step :: !fails(s) || s in {RecoverBundle, WriteIncomplete, DropStaging, DropDestination}
  {
    if Publishes(fails) {
      forall s: Step ensures !fails(s) || s in {RecoverBundle, WriteIncomplete, DropStaging, DropDestination} {
        match s {
          case RecoverBundle =>
          case WriteIncomplete =>
          case DropStaging =>
          case DropDestination =>
          case _ =>
        }
      }
    }
  }

  /** The catch block. */
  method Recover(out: Output, fails: Faults, p: Progress) returns (outcome: LogOutcome)
    requires p.claimed ==> out.files.Some?
    requires p.networkAttempted ==> p.claimed && Honest(out.files.value, p.bundle)
    requires p.bundle.Some? ==> p.networkAttempted
    requires p.staged ==> p.claimed
    requires p.claimed && !p.staged ==> out.staging == None
    modifies out`files, out`staging
    ensures outcome == if p.bundle.Some? then Performed else if p.networkAttempted then Unknown else NotAttempted
    ensures !p.claimed ==> out.files == old(out.files) && out.staging == old(out.staging)
    ensures p.claimed && !p.networkAttempted && !fails(DropDestination) ==> out.files == None && out.staging == None
    ensures p.networkAttempted ==> out.files.Some? && RecoveredFrom(old(out.files).value, out.files.value, p.bundle, fails)
    ensures p.networkAttempted ==>
              && out.files.Some?
              && (p.bundle.Some? && !fails(RecoverBundle) ==>
                    BundleName in out.files.value && out.files.value[BundleName] == BundleFile(p.bundle.value))
              && (p.bundle.Some? && fails(RecoverBundle) ==>
                    (Available(out.files.value, p.bundle.value) <==> BundleName in old(out.files).value))
              && (!fails(WriteIncomplete) ==>
                    StatusName in out.files.value && out.files.value[StatusName] == StatusFile(Incomplete(outcome, p.bundle)))
              && (!fails(DropStaging) ==> out.staging == None)
  {
    outcome := if p.bundle.Some? then Performed else if p.networkAttempted then Unknown else NotAttempted;
    if p.claimed && p.networkAttempted {
      if p.bundle.Some? {
        var _ := out.Write(BundleName, BundleFile(p.bundle.value), true, fails(RecoverBundle));
      }
      var _ := out.Write(StatusName, StatusFile(Incomplete(outcome, p.bundle)), false, fails(WriteIncomplete));
    }
    if p.staged {
      var _ := out.Unstage(fails(DropStaging));
    }
    if p.claimed && !p.networkAttempted {
      var _ := out.Remove(fails(DropDestination));
    }
  }

  /** What the attestation reports: the exit code, and on failure the transparency-log outcome. */
  datatype Reported = Success | Failure(outcome: LogOutcome)

  /** `executeRecordAttest` under a fault at any steps.  `appears` says that another process
      creates the output path between the check and the claim; `signed` and `binding` are what
      the signer and the binding builder return when they do. */
  method ExecuteRecordAttest(out: Output, fails: Faults, appears: bool, signed: Bytes, binding: Bytes)
    returns (reported: Reported, signerCalls: nat)
    modifies out
    // Exit 0 exactly when nothing threw, and then the directory is complete and clean.
    ensures reported.Success? <==>
              old(out.files).None? && !appears && Publishes(fails) && |signed| <= MAX_SIGSTORE_BUNDLE_BYTES
    ensures reported.Success? ==> out.files == Some(Complete(signed, binding)) && out.staging == None && signerCalls == 1
    // The reported outcome is exact.
    ensures reported == Failure(NotAttempted) <==> !(old(out.files).None? && !appears && ReachesSigner(fails))
    ensures reported == Failure(NotAttempted) ==> signerCalls == 0
    ensures reported == Failure(Unknown) ==> signerCalls == 1 && !Signs(fails)
    ensures reported == Failure(Performed) ==> signerCalls == 1 && Signs(fails)
    // Nothing of this run's directory stays when the signer was never called and removal works.
    ensures reported == Failure(NotAttempted) && !fails(DropDestination) && old(out.files).None? && !appears ==>
              out.files == None
    // A directory that was already there is never changed.
    ensures old(out.files).Some? ==>
              reported == Failure(NotAttempted) && out.files == old(out.files) && out.staging == old(out.staging)
    ensures appears && old(out.files).None? && out.files.Some? ==> out.files == Some(THEIRS)
    // A bundle the signer returned is kept, and marked for what it is.
    ensures reported == Failure(Performed) && !fails(RecoverBundle) ==>
              out.files.Some? && BundleName in out.files.value && out.files.value[BundleName] == BundleFile(signed)
    ensures reported.Failure? && reported.outcome != NotAttempted && !fails(WriteIncomplete) ==>
              && out.files.Some? && StatusName in out.files.value
              && out.files.value[StatusName] ==
                   StatusFile(Incomplete(reported.outcome, if reported.outcome == Performed then Some(signed) else None))
    ensures reported.Failure? && reported.outcome != NotAttempted && !fails(DropStaging) ==> out.staging == None
    // The status names the bundle as available whenever the signer returned one; it is there
    // exactly when the catch block could write it or it had been renamed before.
    ensures reported == Failure(Performed) ==>
              && out.files.Some?
              && (Available(out.files.value, signed) <==> !fails(RecoverBundle) || BundleOut(fails, signed))
    // After a failure of the signer or later the directory shows the status, the bundle only if the
    // signer returned it (torn only if writing it back failed), and the binding only if it was
    // renamed out.
    ensures reported.Failure? && reported.outcome != NotAttempted ==>
              out.files.Some? && Shows(out.files.value, reported.outcome == Performed, signed, binding, fails)
    // The same outcomes told from the steps.
    ensures reported == Success <==>
              && old(out.files) == None && !appears && |signed| <= 8 * 1024 * 1024
              && forall s: Step :: !fails(s) || s in {RecoverBundle, WriteIncomplete, DropStaging, DropDestination}
    ensures reported == Failure(NotAttempted) <==>
              || old(out.files) != None || appears
              || !NoneFails(fails, {Preflight, StoreReceipts, MakeParents, Claim, MakeStaging, WritePending})
    ensures reported == Failure(Unknown) <==> reported != Failure(NotAttempted) && (fails(Sign) || fails(Canonicalize))
    // Created parent directories stay, whatever happens next.
    ensures !fails(MakeParents) ==>
              (out.parents <==> old(out.parents) || (old(out.files).None? && !fails(Preflight) && !fails(StoreReceipts)))
    // So a failure without a call of the signer leaves no created directory behind exactly when
    // there was no parent to create, or none was created yet.
    ensures reported == Failure(NotAttempted) && !fails(DropDestination) && old(out.files).None? && !appears && !fails(MakeParents) ==>
              (out.files == None && out.parents == old(out.parents) <==>
                 old(out.parents) || fails(Preflight) || fails(StoreReceipts))
  {
    MilestonesAsTold(fails);
    var p := ClaimOutput(out, fails, appears);
    if p.networkAttempted {
      p := SignAndPublish(out, fails, signed, binding, p);
      if p.finished {
        return Success, p.signerCalls;
      }
    }
    ghost var before := out.files;
    var outcome := Recover(out, fails, p);
    if p.networkAttempted { RecoveredShows(before.value, out.files.value, p.bundle, fails, signed, binding); }
    return Failure(outcome), p.signerCalls;
  }

  /** A run in which a created parent stays: a failed claim of the staging directory removes the
      output directory but leaves its new parent. */
  method ParentsStayBehind(out: Output) returns (reported: Reported)
    requires out.files == None && !out.parents
    modifies out
    ensures reported == Failure(NotAttempted)
    ensures out.files == None && out.parents
  {
    var fails: Faults := (s: Step) => s == MakeStaging;
    var calls: nat;
    reported, calls := ExecuteRecordAttest(out, fails, false, [], []);
  }
}
