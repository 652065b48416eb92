/** Reading no more than a limit: a response body that arrives in chunks
    (packages/cli/src/http-response.ts) and a regular file read at increasing offsets
    (packages/cli/src/record-sigstore.ts).  The sender chooses the chunk sizes, the system
    how short each read is. */
module BoundedReads {
  import opened Options
  import opened Sequences

  type Byte = bv8
  type Bytes = seq<Byte>

  const BUFFER_BYTES: int := 64 * 1024

  function Concat(chunks: seq<Bytes>): Bytes {
    if chunks == [] then [] else Concat(chunks[..|chunks| - 1]) + chunks[|chunks| - 1]
  }

  lemma ConcatSnoc(chunks: seq<Bytes>, chunk: Bytes)
    ensures Concat(chunks + [chunk]) == Concat(chunks) + chunk
  {
    assert (chunks + [chunk])[..|chunks|] == chunks;
  }

  lemma {:induction false} ConcatPrefix(chunks: seq<Bytes>, n: nat)
    requires n <= |chunks|
    ensures |Concat(chunks[..n])| <= |Concat(chunks)|
  {
    if n == |chunks| {
      TakeAll(chunks);
    } else {
      var init := chunks[..|chunks| - 1];
      ConcatPrefix(init, n);
      assert init[..n] == chunks[..n];
    }
  }

  // ---------------------------------------------------------------------
  // A response body
  // ---------------------------------------------------------------------

  /** What a read of the stream may give; after the last event the stream is done. */
  datatype Event = Chunk(bytes: Bytes) | Alien | Broken

  datatype Body = NoBody | Stream(events: seq<Event>)

  datatype Answer = Whole(bytes: Bytes) | Refused | Failed

  function Payloads(events: seq<Event>): (r: seq<Bytes>)
    ensures |r| == |events|
  {
    seq(|events|, i requires 0 <= i < |events| => if events[i].Chunk? then events[i].bytes else [])
  }

  ghost predicate AllChunks(events: seq<Event>, n: nat) {
    forall i :: 0 <= i < n && i < |events| ==> events[i].Chunk?
  }

  ghost predicate Stops(events: seq<Event>, limit: int, n: nat) {
    && n < |events| && AllChunks(events, n) && |Concat(Payloads(events[..n]))| <= limit
    && (events[n].Chunk? ==> |Concat(Payloads(events[..n + 1]))| > limit)
  }

  lemma PayloadsSnoc(events: seq<Event>, i: nat)
    requires i < |events| && events[i].Chunk?
    ensures Payloads(events[..i + 1]) == Payloads(events[..i]) + [events[i].bytes]
  {
  }

  /** Beyond the place where reading stops, the body is too long or not made of bytes. */
  lemma StoppedIsNotWhole(events: seq<Event>, limit: int, n: nat)
    requires Stops(events, limit, n)
    ensures !(AllChunks(events, |events|) && |Concat(Payloads(events))| <= limit)
  {
    if events[n].Chunk? {
      ConcatPrefix(Payloads(events), n + 1);
      assert Payloads(events)[..n + 1] == Payloads(events[..n + 1]);
    }
  }

  /** The reading loop: all chunks, or where it stopped. */
  method ReadStream(events: seq<Event>, maxBytes: int) returns (whole: bool, chunks: seq<Bytes>, total: nat, consumed: nat)
    requires maxBytes > 0
    ensures whole ==>
              && consumed == |events| && AllChunks(events, |events|)
              && chunks == Payloads(events) && total == |Concat(chunks)| <= maxBytes
    ensures !whole ==> 0 < consumed <= |events| && Stops(events, maxBytes, consumed - 1)
  {
    whole, chunks, total, consumed := false, [], 0, 0;
    while consumed < |events|
      invariant consumed <= |events| && AllChunks(events, consumed)
      invariant chunks == Payloads(events[..consumed])
      invariant total == |Concat(chunks)| <= maxBytes
    {
      var next := events[consumed];
      consumed := consumed + 1;
      if !next.Chunk? {
        return;
      }
      PayloadsSnoc(events, consumed - 1);
      ConcatSnoc(chunks, next.bytes);
      total := total + |next.bytes|;
      if total > maxBytes {
        return;
      }
      chunks := chunks + [next.bytes];
    }
    TakeAll(events);
    whole := true;
  }

  /** The body is made of bytes and within the limit. */
  ghost predicate Fits(body: Body, limit: int) {
    body.Stream? ==> AllChunks(body.events, |body.events|) && |Concat(Payloads(body.events))| <= limit
  }

  /** `readBoundedResponse`: the whole body in order, when it is made of bytes and within the
      limit, whatever its chunks; `consumed` events are read, and nothing beyond the first that
      decides. */
  method ReadBoundedResponse(declared: Option<int>, body: Body, maxBytes: int) returns (answer: Answer, cancelled: bool, consumed: nat)
    ensures answer.Whole? <==> maxBytes > 0 && !(declared.Some? && declared.value > maxBytes) && Fits(body, maxBytes)
    ensures answer.Whole? ==> answer.bytes == if body.Stream? then Concat(Payloads(body.events)) else []
    ensures answer.Whole? ==> !cancelled && (body.Stream? ==> consumed == |body.events|)
    ensures consumed > 0 && !answer.Whole? ==> body.Stream? && Stops(body.events, maxBytes, consumed - 1)
    ensures answer.Failed? <==>
              consumed > 0 && !answer.Whole? && body.Stream? && consumed <= |body.events| && body.events[consumed - 1].Broken?
    ensures cancelled <==> answer.Refused? && maxBytes > 0
  {
    if maxBytes <= 0 {
      return Refused, false, 0;
    }
    if declared.Some? && declared.value > maxBytes {
      return Refused, true, 0;
    }
    if body.NoBody? {
      return Whole([]), false, 0;
    }
    var whole, chunks, total;
    whole, chunks, total, consumed := ReadStream(body.events, maxBytes);
    if !whole {
      StoppedIsNotWhole(body.events, maxBytes, consumed - 1);
      if body.events[consumed - 1].Broken? {
        return Failed, false, consumed;
      }
      return Refused, true, consumed;
    }
    var bytes := CopyAll(chunks, total);
    answer, cancelled := Whole(bytes), false;
  }

  /** The chunks copied into one array, each at the offset where the previous one ended. */
  method CopyAll(chunks: seq<Bytes>, total: nat) returns (r: Bytes)
    requires total == |Concat(chunks)|
    ensures r == Concat(chunks)
  {
    var bytes := new Byte[total];
    var offset := 0;
    assert chunks[..0] == [];
    for i := 0 to |chunks|
      invariant offset == |Concat(chunks[..i])| <= total
      invariant bytes[..offset] == Concat(chunks[..i])
    {
      var chunk := chunks[i];
      TakeOneMore(chunks, i);
      ConcatSnoc(chunks[..i], chunk);
      ConcatPrefix(chunks, i + 1);
      ghost var before := bytes[..offset];
      forall k | 0 <= k < |chunk| {
        bytes[offset + k] := chunk[k];
      }
      assert bytes[..offset + |chunk|] == before + chunk;
      offset := offset + |chunk|;
    }
    TakeAll(chunks);
    r := bytes[..];
    assert bytes[..offset] == bytes[..];
  }

  // ---------------------------------------------------------------------
  // A regular file
  // ---------------------------------------------------------------------

  /** What the system reports about a path or an open handle. */
  datatype Stat = Stat(regular: bool, size: nat, device: nat, inode: nat)

  predicate BoundedRegular(stat: Stat, maxBytes: nat) {
    stat.regular && stat.size <= maxBytes
  }

  predicate SameFile(a: Stat, b: Stat) {
    a.device == b.device && a.inode == b.inode
  }

  /** `readBoundedRegularFile`.  The path may lead to another file once it is opened, and the
      reported sizes need not be that of the content the reads see; `shorts` says how many bytes
      each read delivers, and the system gives at least one before the end. */
  method ReadBoundedRegularFile(before: Stat, handle: Stat, content: Bytes, sizeAfter: nat, maxBytes: nat, shorts: nat -> nat)
    returns (r: Option<Bytes>)
    ensures r == if && BoundedRegular(before, maxBytes) && BoundedRegular(handle, maxBytes) && SameFile(before, handle)
                    && |content| <= maxBytes && sizeAfter == |content|
                 then Some(content) else None
  {
    if !before.regular || before.size > maxBytes {
      return None;
    }
    if !handle.regular || handle.size > maxBytes || handle.device != before.device || handle.inode != before.inode {
      return None;
    }
    var chunks: seq<Bytes> := [];
    var total := 0;
    while total <= maxBytes
      invariant total <= |content| && total <= maxBytes && Concat(chunks) == content[..total]
      decreases |content| - total
    {
      var size := if BUFFER_BYTES < maxBytes + 1 then BUFFER_BYTES else maxBytes + 1;
      var length := if size < maxBytes + 1 - total then size else maxBytes + 1 - total;
      var available := if length < |content| - total then length else |content| - total;
      var bytesRead := if available == 0 then 0 else 1 + shorts(total) % available;
      if bytesRead == 0 {
        break;
      }
      ghost var start := total;
      ConcatSnoc(chunks, content[total..total + bytesRead]);
      chunks := chunks + [content[total..total + bytesRead]];
      total := total + bytesRead;
      assert content[..total] == content[..start] + content[start..total];
      if total > maxBytes {
        return None;
      }
    }
    TakeAll(content);
    r := if sizeAfter == total then Some(Concat(chunks)) else None;
  }
}
