/** The approval store (packages/shared/src/approval-store.ts): receipts kept one file each,
    named by the digest of the request they answer.  A request id is a one-time handle. */
module ApprovalStore {
  import opened Options

  type Bytes = seq<bv8>

  const MAX_RECEIPT_BYTES: int := 256 * 1024

  datatype Decision = Approved | Denied

  /** The request: its id, and everything else it asks for. */
  datatype Request = Request(requestId: string, scope: string)

  datatype Receipt = Receipt(request: Request, decision: Decision, decidedBy: string, decidedAt: string, requestDigest: string)

  /** The schema, the canonical text and its parser, and the request digest. */
  datatype Codec = Codec(fits: Receipt -> bool, write: Receipt -> Bytes, parse: Bytes -> Option<Receipt>, digest: Request -> string)

  ghost predicate Lawful(c: Codec) {
    && (forall r: Receipt :: c.fits(r) ==> c.parse(c.write(r)) == Some(r))
    && (forall b: Bytes :: c.parse(b).Some? ==> c.fits(c.parse(b).value))
    && (forall a: Request, b: Request :: c.digest(a) == c.digest(b) ==> a == b)
  }

  /** `validateReceipt` */
  predicate Valid(c: Codec, r: Receipt) {
    c.fits(r) && r.requestDigest == c.digest(r.request)
  }

  /** A receipt file by its digest, or any other name that ends in `.json`. */
  datatype Name = ReceiptFile(digest: string) | OtherJson(text: string)

  datatype Entry = Regular(bytes: Bytes) | Irregular

  type Entries = map<Name, Entry>

  // ---------------------------------------------------------------------
  // One call
  // ---------------------------------------------------------------------

  /** The receipt an entry holds, if it is one the store accepts. */
  function Held(c: Codec, e: Entry): Option<Receipt> {
    if e.Irregular? || |e.bytes| > MAX_RECEIPT_BYTES then None
    else
      var parsed := c.parse(e.bytes);
      if parsed.Some? && Valid(c, parsed.value) then parsed else None
  }

  /** The scan finds nothing it cannot read and no other use of the request id. */
  predicate Admits(c: Codec, e: Entry, r: Receipt) {
    var held := Held(c, e);
    held.Some? && (held.value.request.requestId == r.request.requestId ==> held.value.requestDigest == r.requestDigest)
  }

  ghost predicate ScanPasses(c: Codec, entries: Entries, r: Receipt) {
    forall n :: n in entries ==> Admits(c, entries[n], r)
  }

  /** `readApprovalReceipt` */
  function Lookup(c: Codec, entries: Entries, digest: string): Option<Receipt> {
    if ReceiptFile(digest) !in entries then None
    else
      var held := Held(c, entries[ReceiptFile(digest)]);
      if held.Some? && held.value.requestDigest == digest then held else None
  }

  /** What the rename does: it replaces, or it reports that the name is taken, or it fails. */
  datatype Rename = Replaces | Exists | Fails

  /** Before the rename, everything is in order. */
  ghost predicate Writable(c: Codec, entries: Entries, r: Receipt) {
    Valid(c, r) && ScanPasses(c, entries, r) && |c.write(r)| <= MAX_RECEIPT_BYTES
  }

  /** A call succeeds exactly here. */
  ghost predicate Accepts(c: Codec, entries: Entries, r: Receipt, rename: Rename) {
    && Writable(c, entries, r)
    && (rename == Replaces || (rename == Exists && Lookup(c, entries, r.requestDigest) == Some(r)))
  }

  /** The store after a call. */
  ghost function After(c: Codec, entries: Entries, r: Receipt, rename: Rename): Entries {
    if Writable(c, entries, r) && rename == Replaces then entries[ReceiptFile(r.requestDigest) := Regular(c.write(r))]
    else entries
  }

  // ---------------------------------------------------------------------
  // The same, told from the files
  // ---------------------------------------------------------------------

  /** The file is a regular one of at most 256 KiB, and what it parses to is this receipt, with the
      digest of its own request. */
  predicate Contains(c: Codec, e: Entry, held: Receipt) {
    && e.Regular? && |e.bytes| <= 262_144 && c.parse(e.bytes) == Some(held)
    && held.requestDigest == c.digest(held.request)
  }

  /** Every file holds a receipt, and none of them spends the request id on another request. */
  ghost predicate Vacant(c: Codec, entries: Entries, request: Request) {
    forall n :: n in entries ==>
      exists held :: Contains(c, entries[n], held) && (held.request.requestId == request.requestId ==> held.request == request)
  }

  /** What a put comes to: it works for a receipt of the schema, with the right digest and at most
      256 KiB, against a vacant store, when the rename replaces, or when it reports a file that
      holds the same receipt; and only a rename that replaces changes the store. */
  ghost predicate TellsPut(c: Codec, before: Entries, r: Receipt, rename: Rename, ok: bool, after: Entries) {
    var place := ReceiptFile(c.digest(r.request));
    var ready :=
      && c.fits(r) && r.requestDigest == c.digest(r.request) && |c.write(r)| <= 262_144 && Vacant(c, before, r.request);
    && (ok <==> ready && (rename == Replaces || (rename == Exists && place in before && Contains(c, before[place], r))))
    && after == if ready && rename == Replaces then before[place := Regular(c.write(r))] else before
  }

  /** A lookup finds what the file under the digest holds, if that receipt carries the digest. */
  lemma LookupIff(c: Codec, entries: Entries, digest: string, r: Receipt)
    requires Lawful(c)
    ensures Lookup(c, entries, digest) == Some(r) <==>
            && ReceiptFile(digest) in entries && Contains(c, entries[ReceiptFile(digest)], r) && r.requestDigest == digest
  {
  }

  lemma AdmitsAsTold(c: Codec, e: Entry, r: Receipt)
    requires Lawful(c) && Valid(c, r)
    ensures Admits(c, e, r) <==>
            exists held :: Contains(c, e, held) && (held.request.requestId == r.request.requestId ==> held.request == r.request)
  {
    if Admits(c, e, r) {
      assert Contains(c, e, Held(c, e).value);
    }
    if held :| Contains(c, e, held) && (held.request.requestId == r.request.requestId ==> held.request == r.request) {
      assert Held(c, e) == Some(held);
    }
  }

  lemma PutAsTold(c: Codec, before: Entries, r: Receipt, rename: Rename)
    requires Lawful(c)
    ensures TellsPut(c, before, r, rename, Accepts(c, before, r, rename), After(c, before, r, rename))
  {
    if Valid(c, r) {
      forall n | n in before
        ensures Admits(c, before[n], r) <==>
                exists held :: Contains(c, before[n], held) && (held.request.requestId == r.request.requestId ==> held.request == r.request)
      {
        AdmitsAsTold(c, before[n], r);
      }
      assert ScanPasses(c, before, r) <==> Vacant(c, before, r.request);
    }
  }

  class Store {
    var entries: Entries

    /** The scan of `putApprovalReceipt`, in whatever order the directory lists its files. */
    method Scan(c: Codec, r: Receipt) returns (ok: bool)
      ensures ok <==> ScanPasses(c, entries, r)
    {
      var rest := entries.Keys;
      while rest != {}
        invariant rest <= entries.Keys
        invariant forall n :: n in entries && n !in rest ==> Admits(c, entries[n], r)
        decreases rest
      {
        var n :| n in rest;
        if !Admits(c, entries[n], r) {
          return false;
        }
        rest := rest - {n};
      }
      ok := true;
    }

    /** `putApprovalReceipt` */
    method PutApprovalReceipt(c: Codec, r: Receipt, rename: Rename) returns (ok: bool)
      requires Lawful(c)
      modifies this
      ensures ok <==> Accepts(c, old(entries), r, rename)
      ensures entries == After(c, old(entries), r, rename)
      ensures ok ==> Lookup(c, entries, r.requestDigest) == Some(r)
      ensures TellsPut(c, old(entries), r, rename, ok, entries)
    {
      PutAsTold(c, entries, r, rename);
      if !Valid(c, r) {
        return false;
      }
      ok := Scan(c, r);
      if !ok || |c.write(r)| > MAX_RECEIPT_BYTES {
        return false;
      }
      match rename {
        case Replaces => entries := entries[ReceiptFile(r.requestDigest) := Regular(c.write(r))];
        case Fails => ok := false;
        case Exists =>
          var existing := Lookup(c, entries, r.requestDigest);
          ok := existing.Some? && c.write(existing.value) == c.write(r);
          if existing.Some? { SameText(c, entries, r, existing.value); }
      }
    }
  }

  /** Comparing canonical texts compares receipts. */
  lemma SameText(c: Codec, entries: Entries, r: Receipt, existing: Receipt)
    requires Lawful(c) && Valid(c, r) && Lookup(c, entries, r.requestDigest) == Some(existing)
    ensures c.write(existing) == c.write(r) <==> existing == r
  {
    assert c.fits(existing);
    assert c.parse(c.write(existing)) == Some(existing) && c.parse(c.write(r)) == Some(r);
  }

  // ---------------------------------------------------------------------
  // Whole runs
  // ---------------------------------------------------------------------

  datatype Op = Op(receipt: Receipt, rename: Rename)

  /** The store after the first `k` calls. */
  ghost function StoreAt(c: Codec, start: Entries, ops: seq<Op>, k: nat): Entries
    requires k <= |ops|
  {
    if k == 0 then start else After(c, StoreAt(c, start, ops, k - 1), ops[k - 1].receipt, ops[k - 1].rename)
  }

  ghost predicate AcceptedAt(c: Codec, start: Entries, ops: seq<Op>, k: nat)
    requires k < |ops|
  {
    Accepts(c, StoreAt(c, start, ops, k), ops[k].receipt, ops[k].rename)
  }

  /** The store holds some answer to this request, under its digest. */
  ghost predicate Answers(c: Codec, entries: Entries, request: Request) {
    var held := Lookup(c, entries, c.digest(request));
    held.Some? && held.value.request == request
  }

  /** A call that succeeds leaves an answer to its request. */
  lemma AcceptedAnswers(c: Codec, entries: Entries, r: Receipt, rename: Rename)
    requires Lawful(c) && Accepts(c, entries, r, rename)
    ensures Answers(c, After(c, entries, r, rename), r.request)
  {
  }

  /** No call takes an answer away: a file is only ever replaced by an answer to the same request. */
  lemma AnswerStays(c: Codec, entries: Entries, r: Receipt, rename: Rename, request: Request)
    requires Lawful(c) && Answers(c, entries, request)
    ensures Answers(c, After(c, entries, r, rename), request)
  {
    if Writable(c, entries, r) && rename == Replaces && r.requestDigest == c.digest(request) {
      assert r.request == request;
    }
  }

  lemma {:induction false} AnswerStaysFrom(c: Codec, start: Entries, ops: seq<Op>, i: nat, k: nat)
    requires Lawful(c) && i < k <= |ops| && AcceptedAt(c, start, ops, i)
    ensures Answers(c, StoreAt(c, start, ops, k), ops[i].receipt.request)
  {
    if k == i + 1 {
      AcceptedAnswers(c, StoreAt(c, start, ops, i), ops[i].receipt, ops[i].rename);
    } else {
      AnswerStaysFrom(c, start, ops, i, k - 1);
      AnswerStays(c, StoreAt(c, start, ops, k - 1), ops[k - 1].receipt, ops[k - 1].rename, ops[i].receipt.request);
    }
  }

  /** One content per request id, over every run from any store: two accepted receipts with the
      same request id answer the same request. */
  lemma OneContentPerRequestId(c: Codec, start: Entries, ops: seq<Op>, i: nat, j: nat)
    requires Lawful(c) && i < |ops| && j < |ops|
    requires AcceptedAt(c, start, ops, i) && AcceptedAt(c, start, ops, j)
    requires ops[i].receipt.request.requestId == ops[j].receipt.request.requestId
    ensures ops[i].receipt.request == ops[j].receipt.request
  {
    if i < j {
      LaterAgrees(c, start, ops, i, j);
    } else if j < i {
      LaterAgrees(c, start, ops, j, i);
    }
  }

  lemma LaterAgrees(c: Codec, start: Entries, ops: seq<Op>, i: nat, j: nat)
    requires Lawful(c) && i < j < |ops|
    requires AcceptedAt(c, start, ops, i) && AcceptedAt(c, start, ops, j)
    requires ops[i].receipt.request.requestId == ops[j].receipt.request.requestId
    ensures ops[i].receipt.request == ops[j].receipt.request
  {
    AnswerStaysFrom(c, start, ops, i, j);
    var entries := StoreAt(c, start, ops, j);
    var n := ReceiptFile(c.digest(ops[i].receipt.request));
    assert n in entries && Admits(c, entries[n], ops[j].receipt);
  }

  /** The decision is not part of that content: where the rename replaces, a second receipt for
      the same request takes the place of the first, and the store keeps the first exactly when
      the second is the same receipt.  The message "already exists with different content" is
      for systems whose rename refuses. */
  lemma FirstDecisionKeptIff(c: Codec, entries: Entries, first: Receipt, second: Receipt, rename: Rename)
    requires Lawful(c) && Lookup(c, entries, second.requestDigest) == Some(first) && Writable(c, entries, second)
    ensures Accepts(c, entries, second, rename) <==> rename == Replaces || (rename == Exists && first == second)
    ensures Lookup(c, After(c, entries, second, rename), second.requestDigest) == Some(first) <==>
              rename != Replaces || first == second
  {
  }

  /** It does happen: a denial becomes an approval. */
  lemma DenialCanBecomeApproval(c: Codec, request: Request, decidedBy: string, decidedAt: string)
    returns (denied: Receipt, approved: Receipt)
    requires Lawful(c)
    requires forall d: Decision ::
               var r := Receipt(request, d, decidedBy, decidedAt, c.digest(request));
               c.fits(r) && |c.write(r)| <= MAX_RECEIPT_BYTES
    ensures denied.decision == Denied && approved.decision == Approved && denied.request == approved.request
    ensures var ops := [Op(denied, Replaces), Op(approved, Replaces)];
            && AcceptedAt(c, map[], ops, 0) && AcceptedAt(c, map[], ops, 1)
            && Lookup(c, StoreAt(c, map[], ops, 1), c.digest(request)) == Some(denied)
            && Lookup(c, StoreAt(c, map[], ops, 2), c.digest(request)) == Some(approved)
  {
    denied := Receipt(request, Denied, decidedBy, decidedAt, c.digest(request));
    approved := Receipt(request, Approved, decidedBy, decidedAt, c.digest(request));
    var ops := [Op(denied, Replaces), Op(approved, Replaces)];
    assert c.fits(denied) && c.fits(approved);
    var one := map[ReceiptFile(c.digest(request)) := Regular(c.write(denied))];
    assert StoreAt(c, map[], ops, 0) == map[];
    assert Writable(c, map[], denied);
    assert StoreAt(c, map[], ops, 1) == one;
    assert Held(c, one[ReceiptFile(c.digest(request))]) == Some(denied);
    assert ScanPasses(c, one, approved);
    assert StoreAt(c, map[], ops, 2) == one[ReceiptFile(c.digest(request)) := Regular(c.write(approved))];
  }
}
