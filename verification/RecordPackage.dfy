/** The .vgl package of a release record: the writer and the verifier of
    packages/cli/src/record-package.ts, and the reader of the content-addressed members
    (packages/shared/src/record-reader.ts), must agree on the exact directory. */
module RecordPackage {
  import opened Options

  type Bytes = seq<bv8>
  type Digest = string

  const MAX_MEMBER_BYTES: int := 50_000_000
  const MAX_AGGREGATE_BYTES: int := 256_000_000
  const MAX_MANIFEST_BYTES: int := 8 * 1024 * 1024
  const MAX_SIGNATURE_BYTES: int := 16 * 1024
  const MAX_EXPORT_BYTES: int := 1024 * 1024
  const MAX_VIEWER_BYTES: int := 256 * 1024
  const MAX_DESCRIPTOR_BYTES: int := 4096
  const MAX_BUNDLE_BYTES: int := 8 * 1024 * 1024
  const MAX_BINDING_BYTES: int := 16 * 1024

  datatype Member = Member(path: string, digest: Digest, size: nat, required: bool, omitted: bool, isDecision: bool)

  /** The members, and whatever else the manifest says. */
  datatype Manifest = Manifest(members: seq<Member>, rest: Bytes)

  /** What parsing a manifest guarantees: distinct paths, and one decision, which is required. */
  ghost predicate Parsed(manifest: Manifest) {
    && (forall i, j :: 0 <= i < j < |manifest.members| ==> manifest.members[i].path != manifest.members[j].path)
    && (exists i :: 0 <= i < |manifest.members| && manifest.members[i].isDecision)
    && (forall i :: 0 <= i < |manifest.members| && manifest.members[i].isDecision ==> manifest.members[i].required)
  }

  /** The two schema versions of the descriptor. */
  datatype Descriptor =
    | Legacy(manifestDigest: Digest, signatureIncluded: bool)
    | WithSigstore(manifestDigest: Digest, signatureIncluded: bool)

  /** The file names of a package. */
  datatype Name =
    | ManifestFile | MemberFile(digest: Digest) | DescriptorFile | ViewerFile | ExportFile
    | SignatureFile | BundleFile | BindingFile | Stray(text: string)

  datatype Entry = Regular(bytes: Bytes) | Irregular

  type Dir = map<Name, Entry>

  type Payloads = map<string, Bytes>

  /** Everything that is computed from a record: hashes, whether the schema version and the media
      type of a member are supported, whether its bytes are what its media type says, canonical
      texts, the statement and the viewer.  A statement or a viewer may be impossible to make. */
  datatype Rendering = Rendering(
    hash: Bytes -> Digest,
    describes: Member -> bool,
    admits: (Member, Bytes) -> bool,
    manifest: Manifest -> Bytes,
    manifestDigest: Manifest -> Digest,
    statement: (Manifest, Bytes) -> Option<Bytes>,
    viewer: (Manifest, Bytes, bool, bool) -> Option<Bytes>,
    descriptor: Descriptor -> Bytes,
    readDescriptor: Bytes -> Option<Descriptor>)

  /** The canonical descriptor text is read back as what it was. */
  ghost predicate Canonical(r: Rendering) {
    forall d: Descriptor :: r.readDescriptor(r.descriptor(d)) == Some(d)
  }

  ghost predicate CollisionFree(r: Rendering) {
    forall a: Bytes, b: Bytes :: r.hash(a) == r.hash(b) ==> a == b
  }

  // ---------------------------------------------------------------------
  // Reading the members
  // ---------------------------------------------------------------------

  predicate HoldsBytes(dir: Dir, name: Name) {
    name in dir && dir[name].Regular?
  }

  /** One member is of a supported kind, and it may be missing or is where its digest says, with
      the bytes its digest says.  The kind is tested for omitted members too. */
  predicate MemberHolds(r: Rendering, dir: Dir, m: Member) {
    && r.describes(m)
    && if m.omitted then !m.required
    else
      && HoldsBytes(dir, MemberFile(m.digest))
      && var bytes := dir[MemberFile(m.digest)].bytes;
         |bytes| <= MAX_MEMBER_BYTES && r.hash(bytes) == m.digest && |bytes| == m.size && r.admits(m, bytes)
  }

  function Aggregate(members: seq<Member>): nat {
    if members == [] then 0 else Aggregate(members[..|members| - 1]) + members[|members| - 1].size
  }

  ghost predicate DistinctDigests(members: seq<Member>, n: nat) {
    forall i, j :: 0 <= i < j < n && j < |members| ==> members[i].digest != members[j].digest
  }

  ghost predicate AllHold(r: Rendering, dir: Dir, members: seq<Member>, n: nat) {
    forall i :: 0 <= i < n && i < |members| ==> MemberHolds(r, dir, members[i])
  }

  ghost predicate RecordHolds(r: Rendering, dir: Dir, manifest: Manifest) {
    && Aggregate(manifest.members) <= MAX_AGGREGATE_BYTES
    && DistinctDigests(manifest.members, |manifest.members|)
    && AllHold(r, dir, manifest.members, |manifest.members|)
  }

  /** The payloads are those of the first `n` members that are not omitted. */
  ghost predicate IsPayloads(dir: Dir, members: seq<Member>, n: nat, payloads: Payloads) {
    && (forall i :: 0 <= i < n && i < |members| && !members[i].omitted ==> PayloadAt(dir, members[i], payloads))
    && (forall p :: p in payloads ==> PathAmong(members, n, p))
  }

  predicate PayloadAt(dir: Dir, m: Member, payloads: Payloads) {
    m.path in payloads && HoldsBytes(dir, MemberFile(m.digest)) && payloads[m.path] == dir[MemberFile(m.digest)].bytes
  }

  ghost predicate PathAmong(members: seq<Member>, n: nat, p: string) {
    exists i :: 0 <= i < n && i < |members| && !members[i].omitted && members[i].path == p
  }

  /** `readAndVerifyRecord` */
  method ReadAndVerifyRecord(r: Rendering, dir: Dir, manifest: Manifest) returns (payloads: Option<Payloads>)
    requires Parsed(manifest)
    ensures payloads.Some? <==> RecordHolds(r, dir, manifest)
    ensures payloads.Some? <==> RecordTold(r, dir, manifest.members)
    ensures payloads.Some? ==> IsPayloads(dir, manifest.members, |manifest.members|, payloads.value)
  {
    RecordAsTold(r, dir, manifest);
    var members := manifest.members;
    if Aggregate(members) > MAX_AGGREGATE_BYTES {
      return None;
    }
    var found: Payloads := map[];
    var digests: set<Digest> := {};
    for i := 0 to |members|
      invariant Read(r, dir, members, i, digests, found)
    {
      var m := members[i];
      if m.digest in digests || !MemberHolds(r, dir, m) {
        StopsReading(r, dir, manifest, i, digests, found);
        return None;
      }
      ReadsOneMore(r, dir, manifest, i, digests, found);
      digests := digests + {m.digest};
      if !m.omitted {
        found := found[m.path := dir[MemberFile(m.digest)].bytes];
      }
    }
    payloads := Some(found);
  }

  /** The first `n` members are distinct, hold, and have been collected. */
  ghost predicate Read(r: Rendering, dir: Dir, members: seq<Member>, n: nat, digests: set<Digest>, found: Payloads) {
    && DistinctDigests(members, n) && AllHold(r, dir, members, n)
    && digests == DigestsOf(members, n) && IsPayloads(dir, members, n, found)
  }

  lemma StopsReading(r: Rendering, dir: Dir, manifest: Manifest, i: nat, digests: set<Digest>, found: Payloads)
    requires i < |manifest.members| && Read(r, dir, manifest.members, i, digests, found)
    requires manifest.members[i].digest in digests || !MemberHolds(r, dir, manifest.members[i])
    ensures !RecordHolds(r, dir, manifest)
  {
  }

  lemma ReadsOneMore(r: Rendering, dir: Dir, manifest: Manifest, i: nat, digests: set<Digest>, found: Payloads)
    requires i < |manifest.members| && Parsed(manifest) && Read(r, dir, manifest.members, i, digests, found)
    requires var m := manifest.members[i]; m.digest !in digests && MemberHolds(r, dir, m)
    ensures var m := manifest.members[i];
            Read(r, dir, manifest.members, i + 1, digests + {m.digest},
                 if m.omitted then found else found[m.path := dir[MemberFile(m.digest)].bytes])
  {
    OneMoreDigest(manifest.members, i);
    if manifest.members[i].omitted {
      OneMoreOmitted(dir, manifest.members, i, found);
    } else {
      OneMorePayload(dir, manifest.members, i, found);
    }
  }

  function DigestsOf(members: seq<Member>, n: nat): set<Digest> {
    set i | 0 <= i < n && i < |members| :: members[i].digest
  }

  lemma OneMoreDigest(members: seq<Member>, i: nat)
    requires i < |members|
    ensures DigestsOf(members, i + 1) == DigestsOf(members, i) + {members[i].digest}
  {
  }

  lemma OneMorePayload(dir: Dir, members: seq<Member>, i: nat, payloads: Payloads)
    requires i < |members| && !members[i].omitted && HoldsBytes(dir, MemberFile(members[i].digest))
    requires forall j :: 0 <= j < i ==> members[j].path != members[i].path
    requires IsPayloads(dir, members, i, payloads)
    ensures IsPayloads(dir, members, i + 1, payloads[members[i].path := dir[MemberFile(members[i].digest)].bytes])
  {
    var after := payloads[members[i].path := dir[MemberFile(members[i].digest)].bytes];
    forall j | 0 <= j < i + 1 && !members[j].omitted ensures PayloadAt(dir, members[j], after) {
      if j < i { assert PayloadAt(dir, members[j], payloads); }
    }
    forall p | p in after ensures PathAmong(members, i + 1, p) {
      if p == members[i].path {
        assert members[i].path == p;
      } else {
        assert PathAmong(members, i, p);
      }
    }
  }

  lemma OneMoreOmitted(dir: Dir, members: seq<Member>, i: nat, payloads: Payloads)
    requires i < |members| && members[i].omitted
    requires IsPayloads(dir, members, i, payloads)
    ensures IsPayloads(dir, members, i + 1, payloads)
  {
    forall p | p in payloads ensures PathAmong(members, i + 1, p) {
      assert PathAmong(members, i, p);
    }
  }

  // ---------------------------------------------------------------------
  // The exact directory
  // ---------------------------------------------------------------------

  /** What a package may carry besides the record. */
  datatype Extras = Extras(signature: Option<Bytes>, sigstore: Option<(Bytes, Bytes)>)

  function FirstDecision(members: seq<Member>): Option<Member> {
    if members == [] then None else if members[0].isDecision then Some(members[0]) else FirstDecision(members[1..])
  }

  function DecisionOf(manifest: Manifest, payloads: Payloads): Option<Bytes> {
    var m := FirstDecision(manifest.members);
    if m.Some? && m.value.path in payloads then Some(payloads[m.value.path]) else None
  }

  function DescriptorOf(r: Rendering, manifest: Manifest, signed: bool, sigstore: bool): Descriptor {
    if sigstore then WithSigstore(r.manifestDigest(manifest), signed) else Legacy(r.manifestDigest(manifest), signed)
  }

  /** The file names of the first `n` members that are not omitted. */
  function MemberNames(members: seq<Member>, n: nat): set<Name> {
    set i | 0 <= i < n && i < |members| && !members[i].omitted :: MemberFile(members[i].digest)
  }

  function ExpectedNames(manifest: Manifest, signed: bool, sigstore: bool): set<Name> {
    {ManifestFile, DescriptorFile, ViewerFile, ExportFile} + MemberNames(manifest.members, |manifest.members|)
    + (if signed then {SignatureFile} else {}) + (if sigstore then {BundleFile, BindingFile} else {})
  }

  predicate Holds(dir: Dir, name: Name, bytes: Bytes) {
    name in dir && dir[name] == Regular(bytes)
  }

  /** The statement and the viewer that belong to the record can be made, and are these. */
  predicate Projected(r: Rendering, manifest: Manifest, payloads: Payloads, signed: bool, sigstore: bool, statement: Bytes, viewer: Bytes) {
    var decision := DecisionOf(manifest, payloads);
    && decision.Some?
    && r.statement(manifest, decision.value) == Some(statement)
    && r.viewer(manifest, decision.value, signed, sigstore) == Some(viewer)
  }

  /** The four files every package has. */
  ghost predicate FixedFiles(r: Rendering, manifest: Manifest, payloads: Payloads, signed: bool, sigstore: bool, dir: Dir) {
    && HoldsBytes(dir, ExportFile) && HoldsBytes(dir, ViewerFile)
    && Projected(r, manifest, payloads, signed, sigstore, dir[ExportFile].bytes, dir[ViewerFile].bytes)
    && Holds(dir, DescriptorFile, r.descriptor(DescriptorOf(r, manifest, signed, sigstore)))
    && Holds(dir, ManifestFile, r.manifest(manifest))
  }

  ghost predicate MemberFiles(members: seq<Member>, n: nat, payloads: Payloads, dir: Dir) {
    forall i :: 0 <= i < n && i < |members| && !members[i].omitted ==> PayloadAt(dir, members[i], payloads)
  }

  predicate ExtraFiles(extras: Extras, dir: Dir) {
    && (extras.signature.Some? ==> Holds(dir, SignatureFile, extras.signature.value))
    && (extras.sigstore.Some? ==> Holds(dir, BundleFile, extras.sigstore.value.0) && Holds(dir, BindingFile, extras.sigstore.value.1))
  }

  /** The directory is the package of the record and the extras: these files and no others. */
  ghost predicate IsPackage(r: Rendering, manifest: Manifest, payloads: Payloads, extras: Extras, dir: Dir) {
    var signed, sigstore := extras.signature.Some?, extras.sigstore.Some?;
    && dir.Keys == ExpectedNames(manifest, signed, sigstore)
    && FixedFiles(r, manifest, payloads, signed, sigstore, dir)
    && MemberFiles(manifest.members, |manifest.members|, payloads, dir)
    && ExtraFiles(extras, dir)
  }

  /** The limits both sides check. */
  predicate WriterLimits(dir: Dir)
    requires HoldsBytes(dir, ExportFile) && HoldsBytes(dir, ManifestFile)
  {
    |dir[ExportFile].bytes| <= MAX_EXPORT_BYTES && |dir[ManifestFile].bytes| <= MAX_MANIFEST_BYTES
  }

  /** The limits only the verifier checks. */
  predicate VerifierLimits(dir: Dir)
    requires HoldsBytes(dir, ViewerFile) && HoldsBytes(dir, DescriptorFile)
  {
    && |dir[ViewerFile].bytes| <= MAX_VIEWER_BYTES && |dir[DescriptorFile].bytes| <= MAX_DESCRIPTOR_BYTES
    && Optional(dir, SignatureFile, MAX_SIGNATURE_BYTES)
  }

  /** The same limits, on what the writer is given. */
  predicate FitsVerifier(r: Rendering, manifest: Manifest, decision: Bytes, extras: Extras) {
    var signed, sigstore := extras.signature.Some?, extras.sigstore.Some?;
    var viewer := r.viewer(manifest, decision, signed, sigstore);
    && viewer.Some? && |viewer.value| <= MAX_VIEWER_BYTES
    && |r.descriptor(DescriptorOf(r, manifest, signed, sigstore))| <= MAX_DESCRIPTOR_BYTES
    && (extras.signature.Some? ==> |extras.signature.value| <= MAX_SIGNATURE_BYTES)
  }

  predicate Optional(dir: Dir, name: Name, limit: int) {
    name in dir ==> dir[name].Regular? && |dir[name].bytes| <= limit
  }

  // ---------------------------------------------------------------------
  // The same, told from the manifest and the files
  // ---------------------------------------------------------------------

  /** A member of a supported kind that may be missing, or whose file has its size and digest. */
  ghost predicate Stored(r: Rendering, dir: Dir, m: Member) {
    && r.describes(m)
    && (m.omitted ==> !m.required)
    && (!m.omitted ==> exists bytes :: StoredAs(r, dir, m, bytes))
  }

  predicate StoredAs(r: Rendering, dir: Dir, m: Member, bytes: Bytes) {
    && MemberFile(m.digest) in dir && dir[MemberFile(m.digest)] == Regular(bytes)
    && |bytes| == m.size && m.size <= 50_000_000 && r.hash(bytes) == m.digest && r.admits(m, bytes)
  }

  function Sizes(members: seq<Member>): nat {
    if members == [] then 0 else members[0].size + Sizes(members[1..])
  }

  ghost predicate RecordTold(r: Rendering, dir: Dir, members: seq<Member>) {
    && Sizes(members) <= 256_000_000
    && (forall i :: 0 <= i < |members| ==> Stored(r, dir, members[i]))
    && (forall i, j :: 0 <= i < |members| && 0 <= j < |members| && i != j ==> members[i].digest != members[j].digest)
  }

  lemma {:induction false} SizesAdd(a: seq<Member>, b: seq<Member>)
    ensures Sizes(a + b) == Sizes(a) + Sizes(b)
  {
    if a == [] {
      assert a + b == b;
    } else {
      assert (a + b)[1..] == a[1..] + b;
      SizesAdd(a[1..], b);
    }
  }

  lemma {:induction false} AggregateIsSizes(members: seq<Member>)
    ensures Aggregate(members) == Sizes(members)
  {
    if members != [] {
      var n := |members| - 1;
      AggregateIsSizes(members[..n]);
      assert members == members[..n] + [members[n]];
      SizesAdd(members[..n], [members[n]]);
    }
  }

  lemma MemberAsTold(r: Rendering, dir: Dir, m: Member)
    ensures MemberHolds(r, dir, m) <==> Stored(r, dir, m)
  {
    if MemberHolds(r, dir, m) && !m.omitted {
      assert StoredAs(r, dir, m, dir[MemberFile(m.digest)].bytes);
    }
  }

  lemma RecordAsTold(r: Rendering, dir: Dir, manifest: Manifest)
    ensures RecordHolds(r, dir, manifest) <==> RecordTold(r, dir, manifest.members)
  {
    AggregateIsSizes(manifest.members);
    forall i | 0 <= i < |manifest.members|
      ensures MemberHolds(r, dir, manifest.members[i]) <==> Stored(r, dir, manifest.members[i])
    {
      MemberAsTold(r, dir, manifest.members[i]);
    }
  }

  /** The first decision of the manifest, with these bytes. */
  ghost predicate Decides(manifest: Manifest, payloads: Payloads, i: nat, bytes: Bytes) {
    && i < |manifest.members| && manifest.members[i].isDecision
    && (forall j :: 0 <= j < i ==> !manifest.members[j].isDecision)
    && manifest.members[i].path in payloads && payloads[manifest.members[i].path] == bytes
  }

  /** The files of a package, by name. */
  ghost predicate Belongs(manifest: Manifest, signed: bool, sigstore: bool, name: Name) {
    match name
    case ManifestFile => true
    case DescriptorFile => true
    case ViewerFile => true
    case ExportFile => true
    case MemberFile(digest) =>
      exists i :: 0 <= i < |manifest.members| && !manifest.members[i].omitted && manifest.members[i].digest == digest
    case SignatureFile => signed
    case BundleFile => sigstore
    case BindingFile => sigstore
    case Stray(_) => false
  }

  /** These files and no others; the manifest, the descriptor (of the second schema version exactly
      with Sigstore evidence), and the statement and viewer of the decision. */
  ghost predicate FilesTold(r: Rendering, manifest: Manifest, decision: Bytes, signed: bool, sigstore: bool, dir: Dir) {
    && (forall name :: name in dir <==> Belongs(manifest, signed, sigstore, name))
    && dir[ManifestFile] == Regular(r.manifest(manifest))
    && dir[DescriptorFile] == Regular(r.descriptor(
         if sigstore then WithSigstore(r.manifestDigest(manifest), signed) else Legacy(r.manifestDigest(manifest), signed)))
    && r.statement(manifest, decision).Some? && dir[ExportFile] == Regular(r.statement(manifest, decision).value)
    && r.viewer(manifest, decision, signed, sigstore).Some? && dir[ViewerFile] == Regular(r.viewer(manifest, decision, signed, sigstore).value)
  }

  /** The package of a record: besides those, the members' bytes, and the extras. */
  ghost predicate PackageTold(r: Rendering, manifest: Manifest, payloads: Payloads, extras: Extras, dir: Dir) {
    && (exists i: nat, decision :: Decides(manifest, payloads, i, decision)
                              && FilesTold(r, manifest, decision, extras.signature.Some?, extras.sigstore.Some?, dir))
    && (forall i :: 0 <= i < |manifest.members| && !manifest.members[i].omitted ==>
          && MemberFile(manifest.members[i].digest) in dir && manifest.members[i].path in payloads
          && dir[MemberFile(manifest.members[i].digest)] == Regular(payloads[manifest.members[i].path]))
    && (extras.signature.Some? ==> SignatureFile in dir && dir[SignatureFile] == Regular(extras.signature.value))
    && (extras.sigstore.Some? ==>
          && BundleFile in dir && dir[BundleFile] == Regular(extras.sigstore.value.0)
          && BindingFile in dir && dir[BindingFile] == Regular(extras.sigstore.value.1))
  }

  /** What the verifier accepts: those files, all regular, and each within its limit. */
  ghost predicate AcceptedTold(r: Rendering, dir: Dir, manifest: Manifest, payloads: Payloads, signed: bool, sigstore: bool) {
    && (exists i: nat, decision :: Decides(manifest, payloads, i, decision) && FilesTold(r, manifest, decision, signed, sigstore, dir))
    && (forall name :: name in dir ==> dir[name].Regular?)
    && |dir[ManifestFile].bytes| <= 8_388_608 && |dir[ExportFile].bytes| <= 1_048_576
    && |dir[ViewerFile].bytes| <= 262_144 && |dir[DescriptorFile].bytes| <= 4096
    && (signed ==> |dir[SignatureFile].bytes| <= 16_384)
    && (sigstore ==> |dir[BundleFile].bytes| <= 8_388_608 && |dir[BindingFile].bytes| <= 16_384)
  }

  lemma NamesAsTold(manifest: Manifest, signed: bool, sigstore: bool, name: Name)
    ensures name in ExpectedNames(manifest, signed, sigstore) <==> Belongs(manifest, signed, sigstore, name)
  {
    var members := manifest.members;
    if i :| 0 <= i < |members| && !members[i].omitted && name == MemberFile(members[i].digest) {
      assert name in MemberNames(members, |members|);
    }
  }

  lemma KeysAsTold(manifest: Manifest, signed: bool, sigstore: bool, dir: Dir)
    ensures dir.Keys == ExpectedNames(manifest, signed, sigstore) <==>
            forall name :: name in dir <==> Belongs(manifest, signed, sigstore, name)
  {
    forall name ensures name in ExpectedNames(manifest, signed, sigstore) <==> Belongs(manifest, signed, sigstore, name) {
      NamesAsTold(manifest, signed, sigstore, name);
    }
  }

  lemma {:induction false} DecisionIsFirst(members: seq<Member>)
    ensures FirstDecision(members) == None <==> forall i :: 0 <= i < |members| ==> !members[i].isDecision
    ensures FirstDecision(members).Some? ==>
              exists i :: 0 <= i < |members| && members[i] == FirstDecision(members).value && members[i].isDecision
                       && forall j :: 0 <= j < i ==> !members[j].isDecision
  {
    if members != [] && !members[0].isDecision {
      var rest := members[1..];
      DecisionIsFirst(rest);
      assert forall i :: 0 < i < |members| ==> members[i] == rest[i - 1];
      if FirstDecision(rest).Some? {
        var i :| 0 <= i < |rest| && rest[i] == FirstDecision(rest).value && rest[i].isDecision
              && forall j :: 0 <= j < i ==> !rest[j].isDecision;
        assert members[i + 1] == rest[i];
      }
    }
  }

  lemma DecisionAsTold(manifest: Manifest, payloads: Payloads)
    ensures DecisionOf(manifest, payloads).Some? ==>
              exists i: nat :: Decides(manifest, payloads, i, DecisionOf(manifest, payloads).value)
    ensures forall i: nat, bytes :: Decides(manifest, payloads, i, bytes) ==> DecisionOf(manifest, payloads) == Some(bytes)
  {
    DecisionIsFirst(manifest.members);
    if DecisionOf(manifest, payloads).Some? {
      var members := manifest.members;
      var i :| 0 <= i < |members| && members[i] == FirstDecision(members).value && members[i].isDecision
            && forall j :: 0 <= j < i ==> !members[j].isDecision;
      assert Decides(manifest, payloads, i, DecisionOf(manifest, payloads).value);
    }
  }

  lemma FilesAsTold(r: Rendering, manifest: Manifest, payloads: Payloads, signed: bool, sigstore: bool, dir: Dir)
    ensures dir.Keys == ExpectedNames(manifest, signed, sigstore) && FixedFiles(r, manifest, payloads, signed, sigstore, dir) <==>
            exists i: nat, decision :: Decides(manifest, payloads, i, decision) && FilesTold(r, manifest, decision, signed, sigstore, dir)
  {
    KeysAsTold(manifest, signed, sigstore, dir);
    DecisionAsTold(manifest, payloads);
    var decision := DecisionOf(manifest, payloads);
    if dir.Keys == ExpectedNames(manifest, signed, sigstore) && FixedFiles(r, manifest, payloads, signed, sigstore, dir) {
      var i: nat :| Decides(manifest, payloads, i, decision.value);
      assert FilesTold(r, manifest, decision.value, signed, sigstore, dir);
    }
  }

  lemma PackageAsTold(r: Rendering, manifest: Manifest, payloads: Payloads, extras: Extras, dir: Dir)
    requires IsPackage(r, manifest, payloads, extras, dir)
    ensures PackageTold(r, manifest, payloads, extras, dir)
  {
    FilesAsTold(r, manifest, payloads, extras.signature.Some?, extras.sigstore.Some?, dir);
    assert forall i :: 0 <= i < |manifest.members| && !manifest.members[i].omitted ==> PayloadAt(dir, manifest.members[i], payloads);
  }

  lemma AcceptanceAsTold(r: Rendering, dir: Dir, manifest: Manifest, payloads: Payloads, signed: bool, sigstore: bool)
    ensures Acceptable(r, dir, manifest, payloads, signed, sigstore) <==> AcceptedTold(r, dir, manifest, payloads, signed, sigstore)
  {
    FilesAsTold(r, manifest, payloads, signed, sigstore, dir);
    NamesAsTold(manifest, signed, sigstore, SignatureFile);
    NamesAsTold(manifest, signed, sigstore, BundleFile);
    NamesAsTold(manifest, signed, sigstore, BindingFile);
  }

  // ---------------------------------------------------------------------
  // The verifier
  // ---------------------------------------------------------------------

  ghost predicate AllRegular(dir: Dir) {
    forall name :: name in dir ==> dir[name].Regular?
  }

  /** What the verifier accepts, with the two flags it reports. */
  ghost predicate Acceptable(r: Rendering, dir: Dir, manifest: Manifest, payloads: Payloads, signed: bool, sigstore: bool) {
    && dir.Keys == ExpectedNames(manifest, signed, sigstore) && AllRegular(dir)
    && FixedFiles(r, manifest, payloads, signed, sigstore, dir)
    && WriterLimits(dir) && VerifierLimits(dir)
    && Optional(dir, BundleFile, MAX_BUNDLE_BYTES) && Optional(dir, BindingFile, MAX_BINDING_BYTES)
  }

  /** The descriptor file is the canonical one for these flags, within its limit. */
  predicate Describes(r: Rendering, dir: Dir, manifest: Manifest, signed: bool, sigstore: bool) {
    && Holds(dir, DescriptorFile, r.descriptor(DescriptorOf(r, manifest, signed, sigstore)))
    && |dir[DescriptorFile].bytes| <= MAX_DESCRIPTOR_BYTES
  }

  /** The descriptor file, canonical and bound to the manifest. */
  method ReadDescriptor(r: Rendering, dir: Dir, manifest: Manifest) returns (flags: Option<(bool, bool)>)
    requires Canonical(r)
    ensures flags.Some? ==> Describes(r, dir, manifest, flags.value.0, flags.value.1)
    ensures forall a, b :: Describes(r, dir, manifest, a, b) ==> flags == Some((a, b))
  {
    forall a: bool, b: bool ensures r.readDescriptor(r.descriptor(DescriptorOf(r, manifest, a, b))) == Some(DescriptorOf(r, manifest, a, b)) {
    }
    if !HoldsBytes(dir, DescriptorFile) || |dir[DescriptorFile].bytes| > MAX_DESCRIPTOR_BYTES {
      return None;
    }
    var bytes := dir[DescriptorFile].bytes;
    var parsed := r.readDescriptor(bytes);
    if parsed == None {
      return None;
    }
    var descriptor := parsed.value;
    if bytes != r.descriptor(descriptor) {
      return None;
    }
    var sigstoreIncluded := descriptor.WithSigstore?;
    var expected := DescriptorOf(r, manifest, descriptor.signatureIncluded, sigstoreIncluded);
    if r.descriptor(descriptor) != r.descriptor(expected) {
      return None;
    }
    flags := Some((descriptor.signatureIncluded, sigstoreIncluded));
  }

  /** `assertExactRegularFile`; equal hashes are taken to mean equal bytes. */
  predicate ExactFile(dir: Dir, name: Name, expected: Bytes, limit: int) {
    HoldsBytes(dir, name) && |dir[name].bytes| <= limit && dir[name].bytes == expected
  }

  lemma SubsetOfSameSize<T>(a: set<T>, b: set<T>)
    requires a <= b && |a| == |b|
    ensures a == b
  {
    assert b == a + (b - a);
  }

  /** Same number of names, all of them expected, and every entry a regular file. */
  method CheckNames(dir: Dir, expected: set<Name>) returns (ok: bool)
    ensures ok <==> dir.Keys == expected && AllRegular(dir)
  {
    var actual := dir.Keys;
    if |actual| != |expected| || exists name :: name in actual && name !in expected {
      return false;
    }
    SubsetOfSameSize(actual, expected);
    var rest := actual;
    while rest != {}
      invariant rest <= actual
      invariant forall name :: name in actual && name !in rest ==> dir[name].Regular?
      decreases rest
    {
      var name :| name in rest;
      if !dir[name].Regular? {
        return false;
      }
      rest := rest - {name};
    }
    ok := true;
  }

  /** A file that is there exactly when it should be, within its limit. */
  method CheckOptional(dir: Dir, name: Name, limit: int, included: bool) returns (ok: bool)
    ensures ok <==> Optional(dir, name, limit) && (name in dir <==> included)
  {
    if name in dir && (!dir[name].Regular? || |dir[name].bytes| > limit) {
      return false;
    }
    ok := (name in dir) == included;
  }

  /** The projections, the names, and the optional files, for the flags of the descriptor. */
  method CheckContents(r: Rendering, dir: Dir, manifest: Manifest, payloads: Payloads, signed: bool, sigstore: bool) returns (ok: bool)
    requires Describes(r, dir, manifest, signed, sigstore)
    ensures ok <==> Acceptable(r, dir, manifest, payloads, signed, sigstore)
  {
    var decision := DecisionOf(manifest, payloads);
    if decision == None {
      return false;
    }
    var statement := r.statement(manifest, decision.value);
    if statement == None || !ExactFile(dir, ExportFile, statement.value, MAX_EXPORT_BYTES) {
      return false;
    }
    var viewer := r.viewer(manifest, decision.value, signed, sigstore);
    if viewer == None || !ExactFile(dir, ViewerFile, viewer.value, MAX_VIEWER_BYTES) {
      return false;
    }
    ok := CheckNames(dir, ExpectedNames(manifest, signed, sigstore));
    if !ok || !ExactFile(dir, ManifestFile, r.manifest(manifest), MAX_MANIFEST_BYTES) {
      return false;
    }
    var a := CheckOptional(dir, SignatureFile, MAX_SIGNATURE_BYTES, signed);
    var b := CheckOptional(dir, BundleFile, MAX_BUNDLE_BYTES, sigstore);
    var c := CheckOptional(dir, BindingFile, MAX_BINDING_BYTES, sigstore);
    ok := a && b && c;
  }

  /** `verifyRecordPackageArtifacts`, for a directory with the .vgl suffix. */
  method VerifyRecordPackageArtifacts(r: Rendering, dir: Dir, manifest: Manifest, payloads: Payloads)
    returns (flags: Option<(bool, bool)>)
    requires Canonical(r)
    ensures flags.Some? ==> Acceptable(r, dir, manifest, payloads, flags.value.0, flags.value.1)
    ensures forall a, b :: Acceptable(r, dir, manifest, payloads, a, b) ==> flags == Some((a, b))
    ensures forall a, b :: AcceptedTold(r, dir, manifest, payloads, a, b) <==> flags == Some((a, b))
  {
    forall a, b ensures Acceptable(r, dir, manifest, payloads, a, b) <==> AcceptedTold(r, dir, manifest, payloads, a, b) {
      AcceptanceAsTold(r, dir, manifest, payloads, a, b);
    }
    flags := ReadDescriptor(r, dir, manifest);
    if flags.Some? {
      var ok := CheckContents(r, dir, manifest, payloads, flags.value.0, flags.value.1);
      if !ok {
        flags := None;
      }
    }
  }

  // ---------------------------------------------------------------------
  // The writer
  // ---------------------------------------------------------------------

  /** Everything the writer checks about what it is about to write. */
  ghost predicate Packable(r: Rendering, manifest: Manifest, payloads: Payloads, extras: Extras) {
    var decision := DecisionOf(manifest, payloads);
    && decision.Some?
    && r.statement(manifest, decision.value).Some?
    && |r.statement(manifest, decision.value).value| <= MAX_EXPORT_BYTES
    && r.viewer(manifest, decision.value, extras.signature.Some?, extras.sigstore.Some?).Some?
    && |r.manifest(manifest)| <= MAX_MANIFEST_BYTES
    && ExtrasBounded(extras)
  }

  /** The writer's own checks, before anything is written. */
  method CheckPackable(r: Rendering, manifest: Manifest, payloads: Payloads, extras: Extras) returns (ok: bool)
    ensures ok <==> Packable(r, manifest, payloads, extras)
    ensures ok <==> PackableTold(r, manifest, payloads, extras)
  {
    DecisionAsTold(manifest, payloads);
    var decision := DecisionOf(manifest, payloads);
    if !ExtrasBounded(extras) || decision == None {
      return false;
    }
    var statement := r.statement(manifest, decision.value);
    if statement == None || |statement.value| > MAX_EXPORT_BYTES {
      return false;
    }
    var viewer := r.viewer(manifest, decision.value, extras.signature.Some?, extras.sigstore.Some?);
    ok := viewer.Some? && |r.manifest(manifest)| <= MAX_MANIFEST_BYTES;
  }

  /** The same, told from the decision and the limits. */
  ghost predicate PackableTold(r: Rendering, manifest: Manifest, payloads: Payloads, extras: Extras) {
    && (exists i: nat, decision :: Decides(manifest, payloads, i, decision) && Printable(r, manifest, decision, extras))
    && |r.manifest(manifest)| <= 8_388_608
    && (extras.sigstore.Some? ==> |extras.sigstore.value.0| <= 8_388_608 && |extras.sigstore.value.1| <= 16_384)
  }

  predicate Printable(r: Rendering, manifest: Manifest, decision: Bytes, extras: Extras) {
    && r.statement(manifest, decision).Some? && |r.statement(manifest, decision).value| <= 1_048_576
    && r.viewer(manifest, decision, extras.signature.Some?, extras.sigstore.Some?).Some?
  }

  predicate ExtrasBounded(extras: Extras) {
    extras.sigstore.Some? ==> |extras.sigstore.value.0| <= MAX_BUNDLE_BYTES && |extras.sigstore.value.1| <= MAX_BINDING_BYTES
  }

  /** Which writes fail, and whether the rename and the removal of the staging directory do. */
  datatype Faults = Faults(write: Name -> bool, rename: bool, remove: bool)

  ghost predicate NoFaults(faults: Faults, names: set<Name>) {
    forall name :: name in names ==> !faults.write(name)
  }

  lemma OneMoreName(members: seq<Member>, i: nat)
    requires i < |members|
    ensures MemberNames(members, i + 1) ==
              MemberNames(members, i) + if members[i].omitted then {} else {MemberFile(members[i].digest)}
  {
  }

  lemma FreshName(members: seq<Member>, i: nat)
    requires i < |members| && DistinctDigests(members, |members|)
    ensures MemberFile(members[i].digest) !in MemberNames(members, i)
  {
  }

  /** Two directories agree on the names of one of them. */
  ghost predicate Extends(before: Dir, after: Dir) {
    forall name :: name in before ==> name in after && after[name] == before[name]
  }

  lemma PayloadKept(before: Dir, after: Dir, members: seq<Member>, n: nat, payloads: Payloads)
    requires MemberFiles(members, n, payloads, before) && Extends(before, after)
    ensures MemberFiles(members, n, payloads, after)
  {
    forall i | 0 <= i < n && i < |members| && !members[i].omitted ensures PayloadAt(after, members[i], payloads) {
      assert PayloadAt(before, members[i], payloads);
    }
  }

  /** The first `n` members have been added to a directory that held the manifest. */
  ghost predicate MembersStaged(members: seq<Member>, n: nat, payloads: Payloads, before: Dir, dir: Dir) {
    dir.Keys == {ManifestFile} + MemberNames(members, n) && Extends(before, dir) && MemberFiles(members, n, payloads, dir)
  }

  lemma OneMoreFile(members: seq<Member>, i: nat, payloads: Payloads, before: Dir, dir: Dir)
    requires i < |members| && DistinctDigests(members, |members|) && before.Keys == {ManifestFile}
    requires !members[i].omitted ==> members[i].path in payloads
    requires MembersStaged(members, i, payloads, before, dir)
    ensures MemberFile(members[i].digest) !in dir
    ensures MembersStaged(members, i + 1, payloads, before,
                          if members[i].omitted then dir else dir[MemberFile(members[i].digest) := Regular(payloads[members[i].path])])
  {
    OneMoreName(members, i);
    FreshName(members, i);
    if !members[i].omitted {
      var after := dir[MemberFile(members[i].digest) := Regular(payloads[members[i].path])];
      PayloadKept(dir, after, members, i, payloads);
      assert PayloadAt(after, members[i], payloads);
    }
  }

  class Output {
    var destination: Option<Dir>
    var staging: Option<Dir>

    /** An exclusive write into the staging directory. */
    method Write(name: Name, bytes: Bytes, faults: Faults) returns (ok: bool)
      requires staging.Some?
      modifies this`staging
      ensures staging.Some?
      ensures ok <==> !faults.write(name) && name !in old(staging).value
      ensures ok ==> staging.value == old(staging).value[name := Regular(bytes)]
    {
      ok := !faults.write(name) && name !in staging.value;
      if ok { staging := Some(staging.value[name := Regular(bytes)]); }
    }

    /** The members, one file each. */
    method WriteMembers(members: seq<Member>, payloads: Payloads, faults: Faults) returns (ok: bool)
      requires staging.Some? && staging.value.Keys == {ManifestFile}
      requires DistinctDigests(members, |members|)
      requires forall i :: 0 <= i < |members| && !members[i].omitted ==> members[i].path in payloads
      modifies this`staging
      ensures staging.Some?
      ensures ok <==> NoFaults(faults, MemberNames(members, |members|))
      ensures ok ==>
                && staging.value.Keys == {ManifestFile} + MemberNames(members, |members|)
                && Extends(old(staging).value, staging.value)
                && MemberFiles(members, |members|, payloads, staging.value)
    {
      for i := 0 to |members|
        invariant staging.Some? && MembersStaged(members, i, payloads, old(staging).value, staging.value)
        invariant NoFaults(faults, MemberNames(members, i))
      {
        OneMoreName(members, i);
        OneMoreFile(members, i, payloads, old(staging).value, staging.value);
        if !members[i].omitted {
          ok := Write(MemberFile(members[i].digest), payloads[members[i].path], faults);
          if !ok {
            assert MemberFile(members[i].digest) in MemberNames(members, |members|);
            return;
          }
        }
      }
      ok := true;
    }

    /** The three files generated from the record. */
    method WriteGenerated(descriptor: Bytes, viewer: Bytes, statement: Bytes, faults: Faults) returns (ok: bool)
      requires staging.Some? && staging.value.Keys !! GENERATED
      modifies this`staging
      ensures staging.Some?
      ensures ok <==> NoFaults(faults, GENERATED)
      ensures ok ==> staging.value ==
                     old(staging).value[DescriptorFile := Regular(descriptor)][ViewerFile := Regular(viewer)][ExportFile := Regular(statement)]
    {
      ok := Write(DescriptorFile, descriptor, faults);
      if !ok {
        return;
      }
      ok := Write(ViewerFile, viewer, faults);
      if !ok {
        return;
      }
      ok := Write(ExportFile, statement, faults);
    }

    method WriteExtras(extras: Extras, faults: Faults) returns (ok: bool)
      requires staging.Some? && staging.value.Keys !! {SignatureFile, BundleFile, BindingFile}
      modifies this`staging
      ensures staging.Some?
      ensures ok <==> NoFaults(faults, ExtraNames(extras))
      ensures ok ==>
                && staging.value.Keys == old(staging).value.Keys + ExtraNames(extras)
                && Extends(old(staging).value, staging.value) && ExtraFiles(extras, staging.value)
    {
      ok := true;
      if extras.signature.Some? {
        ok := Write(SignatureFile, extras.signature.value, faults);
      }
      if ok && extras.sigstore.Some? {
        ok := Write(BundleFile, extras.sigstore.value.0, faults);
        if ok { ok := Write(BindingFile, extras.sigstore.value.1, faults); }
      }
    }

    /** The manifest and the members into a new staging directory. */
    method StageRecord(r: Rendering, manifest: Manifest, payloads: Payloads, faults: Faults) returns (ok: bool)
      requires DistinctDigests(manifest.members, |manifest.members|)
      requires forall i :: 0 <= i < |manifest.members| && !manifest.members[i].omitted ==> manifest.members[i].path in payloads
      modifies this`staging
      ensures staging.Some?
      ensures ok <==> NoFaults(faults, RecordNames(manifest))
      ensures ok ==> RecordStaged(r, manifest, payloads, staging.value)
    {
      staging := Some(map[]);
      ok := Write(ManifestFile, r.manifest(manifest), faults);
      if ok {
        ok := WriteMembers(manifest.members, payloads, faults);
      }
    }

    /** The generated files and the extras beside them. */
    method StageRest(r: Rendering, manifest: Manifest, payloads: Payloads, extras: Extras, faults: Faults) returns (ok: bool)
      requires staging.Some? && RecordStaged(r, manifest, payloads, staging.value)
      requires Packable(r, manifest, payloads, extras)
      modifies this`staging
      ensures staging.Some?
      ensures ok <==> NoFaults(faults, GENERATED) && NoFaults(faults, ExtraNames(extras))
      ensures ok ==> IsPackage(r, manifest, payloads, extras, staging.value)
    {
      var signed, sigstore := extras.signature.Some?, extras.sigstore.Some?;
      var decision := DecisionOf(manifest, payloads).value;
      ghost var record := staging.value;
      ok := WriteGenerated(r.descriptor(DescriptorOf(r, manifest, signed, sigstore)),
                           r.viewer(manifest, decision, signed, sigstore).value,
                           r.statement(manifest, decision).value, faults);
      if !ok {
        return;
      }
      ghost var generated := staging.value;
      RestStaged(r, manifest, payloads, signed, sigstore, record, generated);
      ok := WriteExtras(extras, faults);
      if ok {
        PackageAssembled(r, manifest, payloads, extras, generated, staging.value);
      }
    }

    /** All files of the package. */
    method Stage(r: Rendering, store: Dir, manifest: Manifest, payloads: Payloads, extras: Extras, faults: Faults) returns (ok: bool)
      requires RecordHolds(r, store, manifest) && IsPayloads(store, manifest.members, |manifest.members|, payloads)
      requires Packable(r, manifest, payloads, extras)
      modifies this`staging
      ensures staging.Some?
      ensures ok <==> NoFaults(faults, ExpectedNames(manifest, extras.signature.Some?, extras.sigstore.Some?))
      ensures ok ==> IsPackage(r, manifest, payloads, extras, staging.value)
    {
      NamesInParts(manifest, extras);
      assert forall i :: 0 <= i < |manifest.members| && !manifest.members[i].omitted ==> PayloadAt(store, manifest.members[i], payloads);
      ok := StageRecord(r, manifest, payloads, faults);
      if ok {
        ok := StageRest(r, manifest, payloads, extras, faults);
      }
    }

    /** `executeRecordPackage`: all or nothing.  `admitted` stands for the completeness and
        trust checks. */
    method ExecuteRecordPackage(r: Rendering, store: Dir, manifest: Manifest, extras: Extras, admitted: bool, faults: Faults)
      returns (ok: bool, ghost payloads: Payloads)
      requires Parsed(manifest) && staging == None
      modifies this
      ensures ok ==>
                && RecordHolds(r, store, manifest)
                && IsPayloads(store, manifest.members, |manifest.members|, payloads)
                && Packable(r, manifest, payloads, extras)
                && destination.Some? && IsPackage(r, manifest, payloads, extras, destination.value)
                && staging == None
      ensures ok <==>
                && old(destination) == None && RecordHolds(r, store, manifest) && admitted
                && IsPayloads(store, manifest.members, |manifest.members|, payloads)
                && Packable(r, manifest, payloads, extras)
                && NoFaults(faults, ExpectedNames(manifest, extras.signature.Some?, extras.sigstore.Some?)) && !faults.rename
      ensures !ok ==> destination == old(destination) && (!faults.remove ==> staging == None)
      ensures ok ==> RecordTold(r, store, manifest.members) && PackableTold(r, manifest, payloads, extras)
      ensures ok ==> PackageTold(r, manifest, payloads, extras, destination.value)
    {
      RecordAsTold(r, store, manifest);
      payloads := map[];
      if destination.Some? {
        return false, payloads;
      }
      var read := ReadAndVerifyRecord(r, store, manifest);
      if read == None {
        return false, payloads;
      }
      payloads := read.value;
      ok := CheckPackable(r, manifest, read.value, extras);
      if !admitted || !ok {
        return false, payloads;
      }
      ok := WritePackage(r, store, manifest, read.value, extras, faults);
    }

    /** Stage everything, rename, and on a failure remove what was staged. */
    method WritePackage(r: Rendering, store: Dir, manifest: Manifest, payloads: Payloads, extras: Extras, faults: Faults)
      returns (ok: bool)
      requires RecordHolds(r, store, manifest) && IsPayloads(store, manifest.members, |manifest.members|, payloads)
      requires Packable(r, manifest, payloads, extras)
      modifies this
      ensures ok ==> destination.Some? && staging == None && IsPackage(r, manifest, payloads, extras, destination.value)
      ensures ok ==> PackageTold(r, manifest, payloads, extras, destination.value)
      ensures ok <==> NoFaults(faults, ExpectedNames(manifest, extras.signature.Some?, extras.sigstore.Some?)) && !faults.rename
      ensures !ok ==> destination == old(destination) && (!faults.remove ==> staging == None)
    {
      ok := Stage(r, store, manifest, payloads, extras, faults);
      if ok && !faults.rename {
        PackageAsTold(r, manifest, payloads, extras, staging.value);
        destination, staging := staging, None;
        return true;
      }
      if !faults.remove { staging := None; }
      ok := false;
    }
  }

  const GENERATED: set<Name> := {DescriptorFile, ViewerFile, ExportFile}

  function ExtraNames(extras: Extras): set<Name> {
    (if extras.signature.Some? then {SignatureFile} else {}) + (if extras.sigstore.Some? then {BundleFile, BindingFile} else {})
  }

  function RecordNames(manifest: Manifest): set<Name> {
    {ManifestFile} + MemberNames(manifest.members, |manifest.members|)
  }

  lemma NamesInParts(manifest: Manifest, extras: Extras)
    ensures ExpectedNames(manifest, extras.signature.Some?, extras.sigstore.Some?) ==
              RecordNames(manifest) + GENERATED + ExtraNames(extras)
  {
  }

  /** The staging directory once the record is in it. */
  ghost predicate RecordStaged(r: Rendering, manifest: Manifest, payloads: Payloads, dir: Dir) {
    && dir.Keys == RecordNames(manifest)
    && Holds(dir, ManifestFile, r.manifest(manifest))
    && MemberFiles(manifest.members, |manifest.members|, payloads, dir)
  }

  /** The same with the generated files. */
  ghost predicate Staged(r: Rendering, manifest: Manifest, payloads: Payloads, signed: bool, sigstore: bool, dir: Dir) {
    && dir.Keys == RecordNames(manifest) + GENERATED
    && FixedFiles(r, manifest, payloads, signed, sigstore, dir)
    && MemberFiles(manifest.members, |manifest.members|, payloads, dir)
  }

  lemma RestStaged(r: Rendering, manifest: Manifest, payloads: Payloads, signed: bool, sigstore: bool, before: Dir, after: Dir)
    requires RecordStaged(r, manifest, payloads, before)
    requires var decision := DecisionOf(manifest, payloads);
             && decision.Some? && r.statement(manifest, decision.value).Some? && r.viewer(manifest, decision.value, signed, sigstore).Some?
             && after == before[DescriptorFile := Regular(r.descriptor(DescriptorOf(r, manifest, signed, sigstore)))]
                               [ViewerFile := Regular(r.viewer(manifest, decision.value, signed, sigstore).value)]
                               [ExportFile := Regular(r.statement(manifest, decision.value).value)]
    ensures Staged(r, manifest, payloads, signed, sigstore, after)
  {
    assert Extends(before, after) by {
      assert before.Keys !! GENERATED;
    }
    PayloadKept(before, after, manifest.members, |manifest.members|, payloads);
  }

  lemma PackageAssembled(r: Rendering, manifest: Manifest, payloads: Payloads, extras: Extras, before: Dir, after: Dir)
    requires Staged(r, manifest, payloads, extras.signature.Some?, extras.sigstore.Some?, before)
    requires after.Keys == before.Keys + ExtraNames(extras) && Extends(before, after) && ExtraFiles(extras, after)
    ensures IsPackage(r, manifest, payloads, extras, after)
  {
    NamesInParts(manifest, extras);
    FixedKept(r, manifest, payloads, extras.signature.Some?, extras.sigstore.Some?, before, after);
    PayloadKept(before, after, manifest.members, |manifest.members|, payloads);
  }

  lemma FixedKept(r: Rendering, manifest: Manifest, payloads: Payloads, signed: bool, sigstore: bool, before: Dir, after: Dir)
    requires FixedFiles(r, manifest, payloads, signed, sigstore, before) && Extends(before, after)
    ensures FixedFiles(r, manifest, payloads, signed, sigstore, after)
  {
  }

  // ---------------------------------------------------------------------
  // Round trip and uniqueness
  // ---------------------------------------------------------------------

  /** The decision of a record as it lies in the store. */
  function StoredDecision(store: Dir, manifest: Manifest): Option<Bytes> {
    var m := FirstDecision(manifest.members);
    if m.Some? && HoldsBytes(store, MemberFile(m.value.digest)) then Some(store[MemberFile(m.value.digest)].bytes) else None
  }

  lemma {:induction false} FirstDecisionAt(members: seq<Member>, i: nat) returns (k: nat)
    requires i < |members| && members[i].isDecision
    ensures k <= i && members[k].isDecision && FirstDecision(members) == Some(members[k])
  {
    if members[0].isDecision {
      return 0;
    }
    k := FirstDecisionAt(members[1..], i - 1);
    k := k + 1;
  }

  lemma DecisionIsStored(r: Rendering, store: Dir, manifest: Manifest, payloads: Payloads)
    requires Parsed(manifest) && RecordHolds(r, store, manifest)
    requires IsPayloads(store, manifest.members, |manifest.members|, payloads)
    ensures DecisionOf(manifest, payloads).Some? && DecisionOf(manifest, payloads) == StoredDecision(store, manifest)
  {
    var i :| 0 <= i < |manifest.members| && manifest.members[i].isDecision;
    var k := FirstDecisionAt(manifest.members, i);
    assert MemberHolds(r, store, manifest.members[k]);
    assert PayloadAt(store, manifest.members[k], payloads);
  }

  /** Packing and then verifying: the record read from a fresh package is the record packed, and
      the package is accepted, with the right flags, exactly when what was packed keeps the three
      limits that only the verifier checks. */
  method PackThenVerify(out: Output, r: Rendering, store: Dir, manifest: Manifest, extras: Extras, admitted: bool, faults: Faults)
    returns (packed: bool, flags: Option<(bool, bool)>)
    requires Parsed(manifest) && out.staging == None && Canonical(r)
    modifies out
    ensures packed ==> out.destination.Some? && RecordHolds(r, out.destination.value, manifest)
    ensures packed ==> StoredDecision(store, manifest).Some?
    ensures packed ==>
              flags == if FitsVerifier(r, manifest, StoredDecision(store, manifest).value, extras)
                       then Some((extras.signature.Some?, extras.sigstore.Some?)) else None
  {
    flags := None;
    ghost var payloads;
    packed, payloads := out.ExecuteRecordPackage(r, store, manifest, extras, admitted, faults);
    if packed {
      var dir := out.destination.value;
      PackageHoldsRecord(r, store, manifest, payloads, extras, dir);
      PackageAcceptedIff(r, manifest, payloads, extras, dir);
      DecisionIsStored(r, store, manifest, payloads);
      var read := ReadAndVerifyRecord(r, dir, manifest);
      SamePayloadsOfOne(r, dir, manifest.members, payloads, read.value);
      flags := VerifyRecordPackageArtifacts(r, dir, manifest, read.value);
      if flags.Some? {
        OneDescriptor(r, dir, manifest, payloads, extras, flags.value.0, flags.value.1);
      }
    }
  }

  lemma SamePayloadsOfOne(r: Rendering, dir: Dir, members: seq<Member>, pa: Payloads, pb: Payloads)
    requires IsPayloads(dir, members, |members|, pa) && IsPayloads(dir, members, |members|, pb)
    ensures pa == pb
  {
    forall i | 0 <= i < |members| && !members[i].omitted ensures SameMember(r, dir, dir, members[i]) {
      assert PayloadAt(dir, members[i], pa);
    }
    SamePayloads(r, dir, dir, members, pa, pb);
  }

  /** The flags of a package can be read off its descriptor in one way only. */
  lemma OneDescriptor(r: Rendering, dir: Dir, manifest: Manifest, payloads: Payloads, extras: Extras, signed: bool, sigstore: bool)
    requires Canonical(r) && IsPackage(r, manifest, payloads, extras, dir)
    requires Acceptable(r, dir, manifest, payloads, signed, sigstore)
    ensures signed == extras.signature.Some? && sigstore == extras.sigstore.Some?
  {
    OnlyWithFlag(manifest, signed, sigstore);
    OnlyWithFlag(manifest, extras.signature.Some?, extras.sigstore.Some?);
  }

  /** Reading the package gives back the record that was packed. */
  lemma PackageHoldsRecord(r: Rendering, store: Dir, manifest: Manifest, payloads: Payloads, extras: Extras, dir: Dir)
    requires RecordHolds(r, store, manifest)
    requires IsPayloads(store, manifest.members, |manifest.members|, payloads)
    requires IsPackage(r, manifest, payloads, extras, dir)
    ensures RecordHolds(r, dir, manifest)
    ensures IsPayloads(dir, manifest.members, |manifest.members|, payloads)
  {
    var members := manifest.members;
    forall i | 0 <= i < |members| ensures MemberHolds(r, dir, members[i]) {
      assert MemberHolds(r, store, members[i]);
      if !members[i].omitted {
        assert PayloadAt(store, members[i], payloads) && PayloadAt(dir, members[i], payloads);
      }
    }
    assert forall i :: 0 <= i < |members| && !members[i].omitted ==> PayloadAt(dir, members[i], payloads);
  }

  /** What the verifier accepts is a package, of the record it was given and of some extras. */
  lemma AcceptedIsPackage(r: Rendering, dir: Dir, manifest: Manifest, payloads: Payloads, signed: bool, sigstore: bool)
    returns (extras: Extras)
    requires Acceptable(r, dir, manifest, payloads, signed, sigstore)
    requires IsPayloads(dir, manifest.members, |manifest.members|, payloads)
    ensures extras.signature.Some? == signed && extras.sigstore.Some? == sigstore
    ensures IsPackage(r, manifest, payloads, extras, dir)
  {
    extras := Extras(
      if signed then Some(dir[SignatureFile].bytes) else None,
      if sigstore then Some((dir[BundleFile].bytes, dir[BindingFile].bytes)) else None);
    assert MemberFiles(manifest.members, |manifest.members|, payloads, dir);
  }

  lemma OnlyWithFlag(manifest: Manifest, signed: bool, sigstore: bool)
    ensures SignatureFile in ExpectedNames(manifest, signed, sigstore) <==> signed
    ensures BundleFile in ExpectedNames(manifest, signed, sigstore) <==> sigstore
    ensures BindingFile in ExpectedNames(manifest, signed, sigstore) <==> sigstore
  {
  }

  lemma PackageIsRegular(r: Rendering, manifest: Manifest, payloads: Payloads, extras: Extras, dir: Dir)
    requires IsPackage(r, manifest, payloads, extras, dir)
    ensures AllRegular(dir)
  {
    var members := manifest.members;
    forall name | name in dir ensures dir[name].Regular? {
      assert name in ExpectedNames(manifest, extras.signature.Some?, extras.sigstore.Some?);
      if name in MemberNames(members, |members|) {
        var i :| 0 <= i < |members| && !members[i].omitted && MemberFile(members[i].digest) == name;
        assert PayloadAt(dir, members[i], payloads);
      }
    }
  }

  /** A package is accepted exactly when what was packed keeps the limits the writer does not check. */
  lemma PackageAcceptedIff(r: Rendering, manifest: Manifest, payloads: Payloads, extras: Extras, dir: Dir)
    requires IsPackage(r, manifest, payloads, extras, dir) && Packable(r, manifest, payloads, extras)
    ensures Acceptable(r, dir, manifest, payloads, extras.signature.Some?, extras.sigstore.Some?) <==>
              FitsVerifier(r, manifest, DecisionOf(manifest, payloads).value, extras)
  {
    PackageIsRegular(r, manifest, payloads, extras, dir);
    OnlyWithFlag(manifest, extras.signature.Some?, extras.sigstore.Some?);
  }

  /** Names whose bytes the record does not determine. */
  predicate Opaque(name: Name) {
    name == SignatureFile || name == BundleFile || name == BindingFile
  }

  /** Acceptance fixes the file set and every byte outside those files: two accepted directories
      of one manifest with the same flags are otherwise equal. */
  lemma AcceptanceFixesBytes(r: Rendering, a: Dir, b: Dir, manifest: Manifest, pa: Payloads, pb: Payloads, signed: bool, sigstore: bool)
    requires CollisionFree(r) && Parsed(manifest)
    requires RecordHolds(r, a, manifest) && IsPayloads(a, manifest.members, |manifest.members|, pa)
    requires RecordHolds(r, b, manifest) && IsPayloads(b, manifest.members, |manifest.members|, pb)
    requires Acceptable(r, a, manifest, pa, signed, sigstore) && Acceptable(r, b, manifest, pb, signed, sigstore)
    ensures a.Keys == b.Keys && pa == pb
    ensures forall name :: name in a && !Opaque(name) ==> a[name] == b[name]
  {
    var members := manifest.members;
    SameMembers(r, a, b, members);
    SamePayloads(r, a, b, members, pa, pb);
    SameFixedFiles(r, a, b, manifest, pa, signed, sigstore);
    SameButOpaque(r, a, b, manifest, signed, sigstore);
  }

  lemma SameButOpaque(r: Rendering, a: Dir, b: Dir, manifest: Manifest, signed: bool, sigstore: bool)
    requires a.Keys == b.Keys == ExpectedNames(manifest, signed, sigstore)
    requires forall name :: Fixed(name) ==> name in a && name in b && a[name] == b[name]
    requires forall i :: 0 <= i < |manifest.members| && !manifest.members[i].omitted ==> SameMember(r, a, b, manifest.members[i])
    ensures forall name :: name in a && !Opaque(name) ==> a[name] == b[name]
  {
    var members := manifest.members;
    forall name | name in a && !Opaque(name) ensures a[name] == b[name] {
      WhichName(manifest, signed, sigstore, name);
      if name in MemberNames(members, |members|) {
        var i :| 0 <= i < |members| && !members[i].omitted && MemberFile(members[i].digest) == name;
        assert SameMember(r, a, b, members[i]);
      }
    }
  }

  predicate Fixed(name: Name) {
    name == ManifestFile || name == DescriptorFile || name == ViewerFile || name == ExportFile
  }

  lemma WhichName(manifest: Manifest, signed: bool, sigstore: bool, name: Name)
    requires name in ExpectedNames(manifest, signed, sigstore)
    ensures Fixed(name) || Opaque(name) || name in MemberNames(manifest.members, |manifest.members|)
  {
  }

  lemma SameFixedFiles(r: Rendering, a: Dir, b: Dir, manifest: Manifest, payloads: Payloads, signed: bool, sigstore: bool)
    requires FixedFiles(r, manifest, payloads, signed, sigstore, a) && FixedFiles(r, manifest, payloads, signed, sigstore, b)
    ensures forall name :: Fixed(name) ==> name in a && name in b && a[name] == b[name]
  {
  }

  lemma SameMembers(r: Rendering, a: Dir, b: Dir, members: seq<Member>)
    requires CollisionFree(r) && AllHold(r, a, members, |members|) && AllHold(r, b, members, |members|)
    ensures forall i :: 0 <= i < |members| && !members[i].omitted ==> SameMember(r, a, b, members[i])
  {
    forall i | 0 <= i < |members| && !members[i].omitted ensures SameMember(r, a, b, members[i]) {
      assert MemberHolds(r, a, members[i]) && MemberHolds(r, b, members[i]);
    }
  }

  predicate SameMember(r: Rendering, a: Dir, b: Dir, m: Member) {
    HoldsBytes(a, MemberFile(m.digest)) && HoldsBytes(b, MemberFile(m.digest)) && a[MemberFile(m.digest)] == b[MemberFile(m.digest)]
  }

  lemma SamePayloads(r: Rendering, a: Dir, b: Dir, members: seq<Member>, pa: Payloads, pb: Payloads)
    requires IsPayloads(a, members, |members|, pa) && IsPayloads(b, members, |members|, pb)
    requires forall i :: 0 <= i < |members| && !members[i].omitted ==> SameMember(r, a, b, members[i])
    ensures pa == pb
  {
    forall p ensures (p in pa <==> p in pb) && (p in pa ==> pa[p] == pb[p]) {
      if p in pa || p in pb {
        assert PathAmong(members, |members|, p);
        var i :| 0 <= i < |members| && !members[i].omitted && members[i].path == p;
        assert PayloadAt(a, members[i], pa) && PayloadAt(b, members[i], pb) && SameMember(r, a, b, members[i]);
      }
    }
  }
}
