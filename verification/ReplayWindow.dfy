/** The private runner's replay cache (packages/cli/src/private-runner-client.ts): a persisted
    sliding window of job ids and nonces, written before a job is released. */
module ReplayWindow {
  import opened Options
  import opened Sequences

  const MAX_REPLAY_BYTES: int := 256 * 1024
  const MAX_REPLAY_ENTRIES: int := 4096

  // ---------------------------------------------------------------------
  // Identifiers
  // ---------------------------------------------------------------------

  predicate Alphanumeric(c: char) {
    'A' <= c <= 'Z' || 'a' <= c <= 'z' || '0' <= c <= '9'
  }

  /** `/^[A-Za-z0-9][A-Za-z0-9._:/-]{0,255}$/` */
  predicate ValidId(s: string) {
    && 1 <= |s| <= 256 && Alphanumeric(s[0])
    && forall i :: 0 <= i < |s| ==> Alphanumeric(s[i]) || s[i] in "._:/-"
  }

  /** `/^[A-Za-z0-9_-]{16,256}$/` */
  predicate ValidNonce(s: string) {
    16 <= |s| <= 256 && forall i :: 0 <= i < |s| ==> Alphanumeric(s[i]) || s[i] in "_-"
  }

  datatype Job = Job(jobId: string, nonce: string)

  // ---------------------------------------------------------------------
  // The cache file
  // ---------------------------------------------------------------------

  datatype Cache = Cache(jobIds: seq<string>, nonces: seq<string>)

  const NO_CACHE: Cache := Cache([], [])

  function Quoted(items: seq<string>): string {
    if items == [] then ""
    else if |items| == 1 then "\"" + items[0] + "\""
    else "\"" + items[0] + "\"," + Quoted(items[1..])
  }

  /** `JSON.stringify(state) + "\n"`; valid ids need no escapes and are one byte a character. */
  function Render(c: Cache): string {
    "{\"jobIds\":[" + Quoted(c.jobIds) + "],\"nonces\":[" + Quoted(c.nonces) + "]}\n"
  }

  function Characters(items: seq<string>): nat {
    if items == [] then 0 else |items[0]| + Characters(items[1..])
  }

  lemma {:induction false} QuotedLength(items: seq<string>)
    ensures |Quoted(items)| == if items == [] then 0 else Characters(items) + 3 * |items| - 1
  {
    if |items| > 1 { QuotedLength(items[1..]); }
  }

  /** The written size in closed form. */
  lemma RenderLength(c: Cache)
    requires c.jobIds != [] && |c.jobIds| == |c.nonces|
    ensures |Render(c)| == Characters(c.jobIds) + Characters(c.nonces) + 6 * |c.jobIds| + 24
  {
    QuotedLength(c.jobIds);
    QuotedLength(c.nonces);
  }

  predicate AllValid(items: seq<string>) {
    forall i :: 0 <= i < |items| ==> ValidId(items[i])
  }

  /** The tests of `readReplay` and `parseReplay` on a cache that was written. */
  predicate Readable(c: Cache) {
    && |Render(c)| <= MAX_REPLAY_BYTES
    && |c.jobIds| <= MAX_REPLAY_ENTRIES && |c.nonces| <= MAX_REPLAY_ENTRIES
    && AllValid(c.jobIds) && AllValid(c.nonces)
  }

  /** `items.slice(-MAX_REPLAY_ENTRIES)` */
  function Latest<T>(items: seq<T>): (r: seq<T>) {
    if |items| <= MAX_REPLAY_ENTRIES then items else items[|items| - MAX_REPLAY_ENTRIES..]
  }

  /** `rememberReplay` */
  function Remember(c: Cache, job: Job): Cache {
    Cache(Latest(c.jobIds + [job.jobId]), Latest(c.nonces + [job.nonce]))
  }

  // ---------------------------------------------------------------------
  // One poll
  // ---------------------------------------------------------------------

  /** What the server and the checks outside this model answer: nothing usable, no job, or a
      job with the verdicts of the signature test and of the remaining admission tests. */
  datatype Answer = Unusable | NoJob | Offer(job: Job, signatureOk: bool, admissible: bool)

  /** What happens to the write: it works, it fails, or the process dies around the rename. */
  datatype Fate = Written | WriteFails | DiesBeforeRename | DiesAfterRename

  datatype Poll = Poll(answer: Answer, fate: Fate)

  datatype Result = Ready(job: Job) | Denied | Replayed | Empty | Failed | Died

  /** The signature test rejects malformed jobs first. */
  predicate Signed(a: Answer) {
    a.Offer? && ValidId(a.job.jobId) && ValidNonce(a.job.nonce) && a.signatureOk
  }

  /** `pollPrivateRunnerJob`, with the cache file as it leaves it. */
  function Step(file: Option<Cache>, poll: Poll): (r: (Result, Option<Cache>)) {
    if file.Some? && !Readable(file.value) then (Failed, file)
    else
      var replay := if file.None? then NO_CACHE else file.value;
      match poll.answer
      case Unusable => (Failed, file)
      case NoJob => (Empty, file)
      case Offer(job, _, admissible) =>
        if !Signed(poll.answer) then (Denied, file)
        else if job.jobId in replay.jobIds || job.nonce in replay.nonces then (Replayed, file)
        else if !admissible then (Denied, file)
        else
          match poll.fate
          case Written => (Ready(job), Some(Remember(replay, job)))
          case WriteFails => (Failed, file)
          case DiesBeforeRename => (Died, file)
          case DiesAfterRename => (Died, Some(Remember(replay, job)))
  }

  /** The runner with its cache file, and the polls it has made since it was installed. */
  class Runner {
    var file: Option<Cache>
    ghost var history: seq<Poll>

    /** The file is what the polls so far lead to. */
    ghost predicate Valid()
      reads this
    {
      file == FileAfter(history)
    }

    constructor ()
      ensures Valid() && file == None && history == []
    {
      file, history := None, [];
    }

    method ReadReplay() returns (ok: bool, replay: Cache)
      ensures ok <==> file.None? || Readable(file.value)
      ensures ok ==> replay == if file.None? then NO_CACHE else file.value
    {
      replay := NO_CACHE;
      ok := true;
      if file.Some? {
        ok := Readable(file.value);
        if ok { replay := file.value; }
      }
    }

    /** The decisions of a poll, up to the file it leaves. */
    method Decide(poll: Poll) returns (result: Result)
      modifies this`file
      ensures (result, file) == Step(old(file), poll)
    {
      var ok, replay := ReadReplay();
      if !ok || poll.answer.Unusable? {
        return Failed;
      }
      if poll.answer.NoJob? {
        return Empty;
      }
      var job := poll.answer.job;
      if !Signed(poll.answer) {
        return Denied;
      }
      if job.jobId in replay.jobIds || job.nonce in replay.nonces {
        return Replayed;
      }
      if !poll.answer.admissible {
        return Denied;
      }
      if poll.fate.WriteFails? {
        return Failed;
      }
      if poll.fate.DiesBeforeRename? {
        return Died;
      }
      file := Some(Remember(replay, job));
      if poll.fate.DiesAfterRename? {
        return Died;
      }
      return Ready(job);
    }

    /** `pollPrivateRunnerJob`, told from the poll and the jobs on record: which result it is, and
        what is on record and in the file afterwards.  A released job is signed, admissible and
        well formed, shares its id and its nonce with none of the last 4096 on record, and is on
        record itself. */
    method PollPrivateRunnerJob(poll: Poll) returns (result: Result)
      requires Valid()
      modifies this
      ensures Valid() && history == old(history) + [poll]
      ensures (result, file) == Step(old(file), poll)
      ensures IsResult(Recorded(old(history)), poll, result)
      ensures Recorded(history) == Recorded(old(history)) +
                if Goes(Recorded(old(history)), poll) && (poll.fate.Written? || poll.fate.DiesAfterRename?) then [poll.answer.job] else []
      ensures file == FileOf(Recorded(history))
    {
      ghost var before := history;
      result := Decide(poll);
      history := history + [poll];
      RunSnoc(before, poll);
      PollOutcome(before, poll);
      FileIsWindow(history);
    }
  }

  // ---------------------------------------------------------------------
  // Runs
  // ---------------------------------------------------------------------

  function FileAfter(run: seq<Poll>): Option<Cache>
    decreases |run|
  {
    if run == [] then None else Step(FileAfter(run[..|run| - 1]), run[|run| - 1]).1
  }

  function ResultAt(run: seq<Poll>, i: nat): Result
    requires i < |run|
  {
    Step(FileAfter(run[..i]), run[i]).0
  }

  lemma RunSnoc(run: seq<Poll>, poll: Poll)
    ensures FileAfter(run + [poll]) == Step(FileAfter(run), poll).1
  {
    assert (run + [poll])[..|run|] == run;
  }

  /** The poll put its job on record: it released the job, or died after the rename. */
  predicate RecordsFrom(file: Option<Cache>, poll: Poll) {
    Step(file, poll).0.Ready? || (Step(file, poll).0.Died? && poll.fate.DiesAfterRename?)
  }

  function CacheOf(file: Option<Cache>): Cache {
    if file.None? then NO_CACHE else file.value
  }

  /** A poll either leaves the file alone or appends a fresh, well-formed job to its window. */
  lemma StepRecords(file: Option<Cache>, poll: Poll)
    ensures !RecordsFrom(file, poll) ==> Step(file, poll).1 == file
    ensures RecordsFrom(file, poll) ==>
              && poll.answer.Offer? && ValidId(poll.answer.job.jobId) && ValidNonce(poll.answer.job.nonce)
              && poll.answer.job.jobId !in CacheOf(file).jobIds && poll.answer.job.nonce !in CacheOf(file).nonces
              && Step(file, poll).1 == Some(Remember(CacheOf(file), poll.answer.job))
    ensures Step(file, poll).0.Ready? ==> Step(file, poll).0 == Ready(poll.answer.job)
  {
  }

  predicate Records(run: seq<Poll>, i: nat)
    requires i < |run|
  {
    RecordsFrom(FileAfter(run[..i]), run[i])
  }

  /** The jobs on record, oldest first. */
  function Recorded(run: seq<Poll>): (r: seq<Job>)
    decreases |run|
  {
    if run == [] then []
    else
      var n := |run| - 1;
      StepRecords(FileAfter(run[..n]), run[n]);
      Recorded(run[..n]) + if Records(run, n) then [run[n].answer.job] else []
  }

  function Ids(jobs: seq<Job>): (r: seq<string>)
    ensures |r| == |jobs| && forall i :: 0 <= i < |r| ==> r[i] == jobs[i].jobId
  {
    seq(|jobs|, i requires 0 <= i < |jobs| => jobs[i].jobId)
  }

  function Nonces(jobs: seq<Job>): (r: seq<string>)
    ensures |r| == |jobs| && forall i :: 0 <= i < |r| ==> r[i] == jobs[i].nonce
  {
    seq(|jobs|, i requires 0 <= i < |jobs| => jobs[i].nonce)
  }

  function Window(jobs: seq<Job>): Cache {
    Cache(Ids(Latest(jobs)), Nonces(Latest(jobs)))
  }

  lemma WindowSlides(jobs: seq<Job>, job: Job)
    ensures Remember(Window(jobs), job) == Window(jobs + [job])
  {
    var w := Window(jobs);
    assert Latest(w.jobIds + [job.jobId]) == Ids(Latest(jobs + [job]));
    assert Latest(w.nonces + [job.nonce]) == Nonces(Latest(jobs + [job]));
  }

  /** The file of a window. */
  function FileOf(jobs: seq<Job>): Option<Cache> {
    if jobs == [] then None else Some(Window(jobs))
  }

  lemma FileSlides(jobs: seq<Job>, poll: Poll)
    requires RecordsFrom(FileOf(jobs), poll)
    ensures poll.answer.Offer? && Step(FileOf(jobs), poll).1 == FileOf(jobs + [poll.answer.job])
  {
    StepRecords(FileOf(jobs), poll);
    WindowSlides(jobs, poll.answer.job);
    assert Window([]) == NO_CACHE;
  }

  lemma FileStep(jobs: seq<Job>, poll: Poll)
    ensures RecordsFrom(FileOf(jobs), poll) ==> poll.answer.Offer?
    ensures Step(FileOf(jobs), poll).1 ==
            FileOf(jobs + if RecordsFrom(FileOf(jobs), poll) then [poll.answer.job] else [])
  {
    if RecordsFrom(FileOf(jobs), poll) {
      FileSlides(jobs, poll);
    } else {
      StepRecords(FileOf(jobs), poll);
      assert jobs + [] == jobs;
    }
  }

  /** In every run the file holds exactly the last 4096 recorded jobs. */
  lemma {:induction false} FileIsWindow(run: seq<Poll>)
    ensures FileAfter(run) == FileOf(Recorded(run))
    decreases |run|
  {
    if run != [] {
      var n := |run| - 1;
      FileIsWindow(run[..n]);
      StepRecords(FileAfter(run[..n]), run[n]);
      FileStep(Recorded(run[..n]), run[n]);
    }
  }

  lemma {:induction false} RecordedAreValid(run: seq<Poll>)
    ensures forall k :: 0 <= k < |Recorded(run)| ==> ValidId(Recorded(run)[k].jobId) && ValidNonce(Recorded(run)[k].nonce)
    decreases |run|
  {
    if run != [] {
      var n := |run| - 1;
      RecordedAreValid(run[..n]);
      StepRecords(FileAfter(run[..n]), run[n]);
    }
  }

  /** Some recent job has the id or the nonce of `job`. */
  ghost predicate Repeats(recent: seq<Job>, job: Job) {
    exists k :: 0 <= k < |recent| && (recent[k].jobId == job.jobId || recent[k].nonce == job.nonce)
  }

  lemma RepeatsInWindow(jobs: seq<Job>, job: Job)
    ensures Repeats(Latest(jobs), job) <==> job.jobId in Window(jobs).jobIds || job.nonce in Window(jobs).nonces
  {
    var recent := Latest(jobs);
    assert forall k :: 0 <= k < |recent| ==> recent[k].jobId == Ids(recent)[k] && recent[k].nonce == Nonces(recent)[k];
    if job.jobId in Ids(recent) {
      var k :| 0 <= k < |recent| && Ids(recent)[k] == job.jobId;
      assert recent[k].jobId == job.jobId;
    }
    if job.nonce in Nonces(recent) {
      var k :| 0 <= k < |recent| && Nonces(recent)[k] == job.nonce;
      assert recent[k].nonce == job.nonce;
    }
  }

  /** While the cache can be read, a signed job is turned away as a replay exactly when its id
      or its nonce is among the last 4096 recorded ones. */
  lemma ReplayDecision(run: seq<Poll>, poll: Poll)
    requires FileAfter(run).Some? ==> Readable(FileAfter(run).value)
    requires Signed(poll.answer)
    ensures Step(FileAfter(run), poll).0.Replayed? <==> Repeats(Latest(Recorded(run)), poll.answer.job)
  {
    FileIsWindow(run);
    RepeatsInWindow(Recorded(run), poll.answer.job);
  }

  lemma {:induction false} RecordedPrefix(run: seq<Poll>, i: nat, j: nat)
    requires i <= j <= |run|
    ensures Recorded(run[..i]) <= Recorded(run[..j])
    decreases j
  {
    if i < j {
      RecordedPrefix(run, i, j - 1);
      assert run[..j][..j - 1] == run[..j - 1];
    }
  }

  lemma RecordedAt(run: seq<Poll>, i: nat)
    requires i < |run| && Records(run, i)
    ensures run[i].answer.Offer?
    ensures Recorded(run[..i + 1]) == Recorded(run[..i]) + [run[i].answer.job]
  {
    StepRecords(FileAfter(run[..i]), run[i]);
    assert run[..i + 1][..i] == run[..i];
  }

  lemma RecordedSnoc(run: seq<Poll>, poll: Poll)
    requires RecordsFrom(FileAfter(run), poll)
    ensures poll.answer.Offer? && Recorded(run + [poll]) == Recorded(run) + [poll.answer.job]
  {
    StepRecords(FileAfter(run), poll);
    assert (run + [poll])[..|run|] == run;
  }

  // ---------------------------------------------------------------------
  // One poll, told from the jobs on record
  // ---------------------------------------------------------------------

  /** Letters and digits, by their codes. */
  predicate LetterOrDigit(c: char) {
    48 <= c as int <= 57 || 65 <= c as int <= 90 || 97 <= c as int <= 122
  }

  /** Up to 256 letters, digits and `.` `_` `:` `/` `-`, with a letter or digit in front. */
  predicate IdText(s: string) {
    && 0 < |s| < 257 && LetterOrDigit(s[0])
    && forall i :: 0 <= i < |s| ==> LetterOrDigit(s[i]) || s[i] == '.' || s[i] == '_' || s[i] == ':' || s[i] == '/' || s[i] == '-'
  }

  /** Between 16 and 256 letters, digits, `_` and `-`. */
  predicate NonceText(s: string) {
    15 < |s| < 257 && forall i :: 0 <= i < |s| ==> LetterOrDigit(s[i]) || s[i] == '_' || s[i] == '-'
  }

  /** What the reader accepts, of any cache: at most 256 KiB, at most 4096 of each, and all of them
      of the form of an id. */
  lemma ReadableIffText(c: Cache)
    ensures Readable(c) <==>
              && |Render(c)| < 262_145 && |c.jobIds| < 4097 && |c.nonces| < 4097
              && (forall i :: 0 <= i < |c.jobIds| ==> IdText(c.jobIds[i]))
              && (forall i :: 0 <= i < |c.nonces| ==> IdText(c.nonces[i]))
  {
    forall i | 0 <= i < |c.jobIds| ensures ValidId(c.jobIds[i]) <==> IdText(c.jobIds[i]) {
      NamesAsText(Job(c.jobIds[i], ""));
    }
    forall i | 0 <= i < |c.nonces| ensures ValidId(c.nonces[i]) <==> IdText(c.nonces[i]) {
      NamesAsText(Job(c.nonces[i], ""));
    }
  }

  /** There is nothing to read back, or it is short enough and of the right form. */
  ghost predicate CanReadBack(jobs: seq<Job>) {
    jobs == [] || (WindowBytes(Latest(jobs)) <= 262_144
                   && forall k :: 0 <= k < |Latest(jobs)| ==> StartsAlphanumeric(Latest(jobs)[k].nonce))
  }

  /** The job comes with a good signature over well-formed names. */
  predicate Genuine(poll: Poll) {
    && poll.answer.Offer? && poll.answer.signatureOk
    && IdText(poll.answer.job.jobId) && NonceText(poll.answer.job.nonce)
  }

  /** The poll gets as far as writing the job down. */
  ghost predicate Goes(jobs: seq<Job>, poll: Poll) {
    CanReadBack(jobs) && Genuine(poll) && !Repeats(Latest(jobs), poll.answer.job) && poll.answer.admissible
  }

  /** Exactly when a poll after these records has this result. */
  ghost predicate IsResult(jobs: seq<Job>, poll: Poll, result: Result) {
    match result
    case Ready(job) => Goes(jobs, poll) && poll.fate == Written && job == poll.answer.job
    case Replayed => CanReadBack(jobs) && Genuine(poll) && Repeats(Latest(jobs), poll.answer.job)
    case Denied =>
      && CanReadBack(jobs) && poll.answer.Offer?
      && (!Genuine(poll) || (!Repeats(Latest(jobs), poll.answer.job) && !poll.answer.admissible))
    case Empty => CanReadBack(jobs) && poll.answer == NoJob
    case Failed => !CanReadBack(jobs) || poll.answer == Unusable || (Goes(jobs, poll) && poll.fate == WriteFails)
    case Died => Goes(jobs, poll) && (poll.fate == DiesBeforeRename || poll.fate == DiesAfterRename)
  }

  lemma NamesAsText(job: Job)
    ensures ValidId(job.jobId) <==> IdText(job.jobId)
    ensures ValidNonce(job.nonce) <==> NonceText(job.nonce)
  {
    forall c: char
      ensures Alphanumeric(c) <==> LetterOrDigit(c)
      ensures c in "._:/-" <==> c == '.' || c == '_' || c == ':' || c == '/' || c == '-'
      ensures c in "_-" <==> c == '_' || c == '-'
    {
      assert "._:/-" == ['.', '_', ':', '/', '-'] && "_-" == ['_', '-'];
    }
  }

  /** No two results fit one poll, so the conditions above are exact. */
  lemma OneResult(jobs: seq<Job>, poll: Poll, a: Result, b: Result)
    requires IsResult(jobs, poll, a) && IsResult(jobs, poll, b)
    ensures a == b
  {
  }

  lemma ReadsBack(run: seq<Poll>)
    ensures CanReadBack(Recorded(run)) <==> FileAfter(run).None? || Readable(FileAfter(run).value)
  {
    FileIsWindow(run);
    if FileAfter(run).Some? { ReadableIff(run); }
  }

  lemma StepIsResult(file: Option<Cache>, jobs: seq<Job>, poll: Poll)
    requires CanReadBack(jobs) <==> file.None? || Readable(file.value)
    requires poll.answer.Offer? ==>
               (Repeats(Latest(jobs), poll.answer.job) <==>
                poll.answer.job.jobId in CacheOf(file).jobIds || poll.answer.job.nonce in CacheOf(file).nonces)
    ensures IsResult(jobs, poll, Step(file, poll).0)
    ensures RecordsFrom(file, poll) <==> Goes(jobs, poll) && (poll.fate.Written? || poll.fate.DiesAfterRename?)
  {
    if poll.answer.Offer? { NamesAsText(poll.answer.job); }
  }

  lemma PollOutcome(run: seq<Poll>, poll: Poll)
    ensures IsResult(Recorded(run), poll, Step(FileAfter(run), poll).0)
    ensures Recorded(run + [poll]) == Recorded(run) +
              if Goes(Recorded(run), poll) && (poll.fate.Written? || poll.fate.DiesAfterRename?) then [poll.answer.job] else []
  {
    ReadsBack(run);
    if poll.answer.Offer? { RepeatsInFile(run, poll.answer.job); }
    StepIsResult(FileAfter(run), Recorded(run), poll);
    if RecordsFrom(FileAfter(run), poll) {
      RecordedSnoc(run, poll);
    } else {
      assert (run + [poll])[..|run|] == run;
    }
  }

  lemma RepeatsInFile(run: seq<Poll>, job: Job)
    ensures Repeats(Latest(Recorded(run)), job) <==>
            job.jobId in CacheOf(FileAfter(run)).jobIds || job.nonce in CacheOf(FileAfter(run)).nonces
  {
    FileIsWindow(run);
    RepeatsInWindow(Recorded(run), job);
  }

  /** What is on record within the last 4096 entries repeats. */
  lemma RecentRepeats(jobs: seq<Job>, index: nat, job: Job)
    requires index < |jobs| && |jobs| - index <= MAX_REPLAY_ENTRIES
    requires jobs[index].jobId == job.jobId || jobs[index].nonce == job.nonce
    ensures Repeats(Latest(jobs), job)
  {
    var recent := Latest(jobs);
    assert recent[index - (|jobs| - |recent|)] == jobs[index];
  }

  /** The replay window over whole runs, crashes at any point included: when two polls put the
      same job id or the same nonce on record (in particular when both release the job), at
      least 4096 other jobs were recorded in between. */
  lemma ReplayWindowHolds(run: seq<Poll>, i: nat, j: nat)
    requires i < j < |run| && Records(run, i) && Records(run, j)
    requires run[i].answer.Offer? && run[j].answer.Offer?
    requires || run[i].answer.job.jobId == run[j].answer.job.jobId
             || run[i].answer.job.nonce == run[j].answer.job.nonce
    ensures |Recorded(run[..j])| - |Recorded(run[..i + 1])| >= MAX_REPLAY_ENTRIES
  {
    RecordedAt(run, i);
    RecordedPrefix(run, i + 1, j);
    FileIsWindow(run[..j]);
    StepRecords(FileAfter(run[..j]), run[j]);
    var past, index := Recorded(run[..j]), |Recorded(run[..i])|;
    assert past[index] == Recorded(run[..i + 1])[index] == run[i].answer.job;
    RepeatsInWindow(past, run[j].answer.job);
    if |past| - index <= MAX_REPLAY_ENTRIES {
      RecentRepeats(past, index, run[j].answer.job);
    }
  }

  function Releases(run: seq<Poll>): (r: seq<Job>)
    decreases |run|
  {
    if run == [] then []
    else
      var n := |run| - 1;
      Releases(run[..n]) + if ResultAt(run, n).Ready? then [ResultAt(run, n).job] else []
  }

  /** Without a death after a rename, what is on record is exactly what was released. */
  lemma {:induction false} RecordedIsReleased(run: seq<Poll>)
    requires forall i :: 0 <= i < |run| ==> !run[i].fate.DiesAfterRename?
    ensures Recorded(run) == Releases(run)
    decreases |run|
  {
    if run != [] {
      var n := |run| - 1;
      RecordedIsReleased(run[..n]);
      StepRecords(FileAfter(run[..n]), run[n]);
    }
  }

  // ---------------------------------------------------------------------
  // Can the runner read back what it wrote?
  // ---------------------------------------------------------------------

  predicate StartsAlphanumeric(s: string) {
    s != "" && Alphanumeric(s[0])
  }

  /** The written size of a window of jobs, from the lengths of their ids and nonces. */
  function WindowBytes(jobs: seq<Job>): nat {
    Characters(Ids(jobs)) + Characters(Nonces(jobs)) + 6 * |jobs| + 24
  }

  /** The cache of a reachable state is accepted by its own reader exactly when the remembered
      ids and nonces are short enough in total and every nonce starts with a letter or digit.
      (A nonce may legally start with '_' or '-'; an id in the cache may not.) */
  lemma ReadableIff(run: seq<Poll>)
    requires FileAfter(run).Some?
    ensures var w := Latest(Recorded(run));
            Readable(FileAfter(run).value) <==>
              WindowBytes(w) <= MAX_REPLAY_BYTES && forall k :: 0 <= k < |w| ==> StartsAlphanumeric(w[k].nonce)
  {
    FileIsWindow(run);
    RecordedAreValid(run);
    var recent := Latest(Recorded(run));
    var c := FileAfter(run).value;
    RenderLength(c);
    forall k | 0 <= k < |recent|
      ensures ValidId(c.jobIds[k]) && (ValidId(c.nonces[k]) <==> StartsAlphanumeric(recent[k].nonce))
    {
      assert recent[k] in Recorded(run);
      NonceAsId(c.nonces[k]);
    }
  }

  /** One poll at a time: a readable cache stays readable exactly when the job put on record has
      a nonce that starts with a letter or digit and the new window is short enough. */
  lemma StaysReadableIff(run: seq<Poll>, poll: Poll)
    requires FileAfter(run).Some? ==> Readable(FileAfter(run).value)
    requires RecordsFrom(FileAfter(run), poll)
    ensures poll.answer.Offer? && FileAfter(run + [poll]).Some?
    ensures Readable(FileAfter(run + [poll]).value) <==>
              && StartsAlphanumeric(poll.answer.job.nonce)
              && WindowBytes(Latest(Recorded(run) + [poll.answer.job])) <= MAX_REPLAY_BYTES
  {
    var jobs, job := Recorded(run), poll.answer.job;
    RecordedSnoc(run, poll);
    FileIsWindow(run);
    FileIsWindow(run + [poll]);
    ReadableIff(run + [poll]);
    if jobs != [] { ReadableIff(run); }
    WindowNonces(jobs, job);
  }

  /** The new window has the new job last, and otherwise only jobs of the old one. */
  lemma WindowNonces(jobs: seq<Job>, job: Job)
    requires forall k :: 0 <= k < |Latest(jobs)| ==> StartsAlphanumeric(Latest(jobs)[k].nonce)
    ensures var w := Latest(jobs + [job]);
            (forall k :: 0 <= k < |w| ==> StartsAlphanumeric(w[k].nonce)) <==> StartsAlphanumeric(job.nonce)
  {
    var before, after := Latest(jobs), Latest(jobs + [job]);
    assert after[|after| - 1] == job;
    forall k | 0 <= k < |after| - 1 ensures StartsAlphanumeric(after[k].nonce) {
      assert after[k] == before[k + (|before| - (|after| - 1))];
    }
  }

  lemma NonceAsId(s: string)
    requires ValidNonce(s)
    ensures ValidId(s) <==> StartsAlphanumeric(s)
  {
    forall i | 0 <= i < |s| && s[i] in "_-" ensures s[i] in "._:/-" {
      assert "_-"[0] == "._:/-"[1] && "_-"[1] == "._:/-"[4];
    }
  }

  lemma {:induction false} CharactersExactly(items: seq<string>, length: nat)
    requires forall i :: 0 <= i < |items| ==> |items[i]| == length
    ensures Characters(items) == length * |items|
  {
    if items != [] { CharactersExactly(items[1..], length); }
  }

  /** The total length of the ids and nonces of jobs of bounded length. */
  lemma {:induction false} JobsAtMost(jobs: seq<Job>, bound: nat)
    requires forall i :: 0 <= i < |jobs| ==> |jobs[i].jobId| + |jobs[i].nonce| <= bound
    ensures Characters(Ids(jobs)) + Characters(Nonces(jobs)) <= bound * |jobs|
  {
    if jobs != [] {
      JobsAtMost(jobs[1..], bound);
      assert Ids(jobs)[1..] == Ids(jobs[1..]) && Nonces(jobs)[1..] == Nonces(jobs[1..]);
    }
  }

  lemma {:induction false} JobsAtLeast(jobs: seq<Job>, bound: nat)
    requires forall i :: 0 <= i < |jobs| ==> |jobs[i].jobId| + |jobs[i].nonce| >= bound
    ensures Characters(Ids(jobs)) + Characters(Nonces(jobs)) >= bound * |jobs|
  {
    if jobs != [] {
      JobsAtLeast(jobs[1..], bound);
      assert Ids(jobs)[1..] == Ids(jobs[1..]) && Nonces(jobs)[1..] == Nonces(jobs[1..]);
    }
  }

  /** With at most 57 characters for an id and its nonce together (28 each, say), and nonces that
      start with a letter or digit, every reachable cache can be read back, so the runner never
      locks itself out. */
  lemma ShortIdsStayReadable(run: seq<Poll>)
    requires forall i :: 0 <= i < |run| && run[i].answer.Offer? ==>
               |run[i].answer.job.jobId| + |run[i].answer.job.nonce| <= 57 && StartsAlphanumeric(run[i].answer.job.nonce)
    ensures FileAfter(run).Some? ==> Readable(FileAfter(run).value)
  {
    if FileAfter(run).Some? {
      FileIsWindow(run);
      ReadableIff(run);
      var recent := Latest(Recorded(run));
      forall k | 0 <= k < |recent|
        ensures |recent[k].jobId| + |recent[k].nonce| <= 57 && StartsAlphanumeric(recent[k].nonce)
      {
        assert recent[k] in Recorded(run);
        var i := OfferOf(run, recent[k]);
      }
      JobsAtMost(recent, 57);
    }
  }

  lemma {:induction false} OfferOf(run: seq<Poll>, job: Job) returns (i: nat)
    requires job in Recorded(run)
    ensures i < |run| && run[i].answer.Offer? && run[i].answer.job == job
    decreases |run|
  {
    var n := |run| - 1;
    StepRecords(FileAfter(run[..n]), run[n]);
    if Records(run, n) && run[n].answer.job == job {
      i := n;
    } else {
      i := OfferOf(run[..n], job);
    }
  }

  /** The threshold of 28 is tight: a full window of ids of one length fits exactly up to it. */
  lemma FullWindowFitsIff(c: Cache, length: nat)
    requires |c.jobIds| == |c.nonces| == MAX_REPLAY_ENTRIES
    requires forall i :: 0 <= i < MAX_REPLAY_ENTRIES ==> |c.jobIds[i]| == |c.nonces[i]| == length
    ensures |Render(c)| <= MAX_REPLAY_BYTES <==> length <= 28
  {
    CharactersExactly(c.jobIds, length);
    CharactersExactly(c.nonces, length);
    RenderLength(c);
  }

  /** A cache the reader refuses locks the runner out for good: no poll changes it again. */
  lemma {:induction false} LockedOut(run: seq<Poll>, more: seq<Poll>)
    requires FileAfter(run).Some? && !Readable(FileAfter(run).value)
    ensures FileAfter(run + more) == FileAfter(run)
    ensures forall poll :: Step(FileAfter(run + more), poll).0 == Failed
    decreases |more|
  {
    if more == [] {
      assert run + more == run;
    } else {
      var n := |more| - 1;
      LockedOut(run, more[..n]);
      assert (run + more)[..|run + more| - 1] == run + more[..n];
    }
  }

  // --- The two ways to get locked out --------------------------------------

  /** Any released job whose nonce starts with '_' or '-' locks the runner out: every poll that
      follows, however many there are, fails. */
  lemma NonceLocksOut(run: seq<Poll>, poll: Poll, more: seq<Poll>)
    requires poll.answer.Offer? && Step(FileAfter(run), poll).0.Ready?
    requires !StartsAlphanumeric(poll.answer.job.nonce)
    ensures forall p :: Step(FileAfter(run + [poll] + more), p).0 == Failed
  {
    StaysReadableIff(run, poll);
    LockedOut(run + [poll], more);
  }

  /** So does a full window of jobs with at least 58 characters of id and nonce each (29 and 29,
      say), wherever they came from. */
  lemma FullWindowLocksOut(run: seq<Poll>, more: seq<Poll>)
    requires |Recorded(run)| >= MAX_REPLAY_ENTRIES
    requires forall k :: 0 <= k < MAX_REPLAY_ENTRIES ==>
               |Latest(Recorded(run))[k].jobId| + |Latest(Recorded(run))[k].nonce| >= 58
    ensures forall p :: Step(FileAfter(run + more), p).0 == Failed
  {
    FileIsWindow(run);
    ReadableIff(run);
    JobsAtLeast(Latest(Recorded(run)), 58);
    LockedOut(run, more);
  }

  const UNDERSCORE_NONCE: string := "_aaaaaaaaaaaaaaa"

  /** One released job whose nonce starts with '_' is enough. */
  lemma UnderscoreNonceLocksOut() returns (run: seq<Poll>)
    ensures |run| == 1 && ResultAt(run, 0).Ready?
    ensures FileAfter(run).Some? && !Readable(FileAfter(run).value)
  {
    var job := Job("job", UNDERSCORE_NONCE);
    run := [Poll(Offer(job, true, true), Written)];
    assert run[..0] == [];
    assert Signed(run[0].answer);
    assert Records(run, 0);
    assert Recorded(run[..0]) == [];
    assert Recorded(run) == [job];
    FileIsWindow(run);
    ReadableIff(run);
    assert !StartsAlphanumeric(Latest(Recorded(run))[0].nonce);
  }

  function Digit(d: nat): char
    requires d < 10
  {
    ['0', '1', '2', '3', '4', '5', '6', '7', '8', '9'][d]
  }

  const PAD: string := "aaaaaaaaaaaaaaaaaaaaaaaaa"

  /** Ten thousand distinct valid ids of 29 characters, usable as nonces too. */
  function Name29(n: nat): (s: string) {
    var tens := n / 10;
    var hundreds := tens / 10;
    [Digit(hundreds / 10 % 10), Digit(hundreds % 10), Digit(tens % 10), Digit(n % 10)] + PAD
  }

  lemma Name29Valid(n: nat)
    ensures |Name29(n)| == 29 && ValidId(Name29(n)) && ValidNonce(Name29(n))
  {
    var s := Name29(n);
    assert |PAD| == 25 && forall i :: 0 <= i < 25 ==> PAD[i] == 'a';
    forall i | 0 <= i < 29 ensures Alphanumeric(s[i]) {
      if i >= 4 { assert s[i] == PAD[i - 4]; }
    }
  }

  /** Four decimal digits determine a number below ten thousand. */
  lemma SameNumber(m: nat, n: nat)
    requires m < 10000 && n < 10000
    requires m % 10 == n % 10 && m / 10 % 10 == n / 10 % 10
    requires m / 10 / 10 % 10 == n / 10 / 10 % 10 && m / 10 / 10 / 10 % 10 == n / 10 / 10 / 10 % 10
    ensures m == n
  {
  }

  lemma Name29Distinct(m: nat, n: nat)
    requires m < 10000 && n < 10000 && Name29(m) == Name29(n)
    ensures m == n
  {
    Name29Digits(m);
    Name29Digits(n);
    SameDigit(m % 10, n % 10);
    SameDigit(m / 10 % 10, n / 10 % 10);
    SameDigit(m / 10 / 10 % 10, n / 10 / 10 % 10);
    SameDigit(m / 10 / 10 / 10 % 10, n / 10 / 10 / 10 % 10);
    SameNumber(m, n);
  }

  lemma Name29Digits(n: nat)
    ensures |Name29(n)| >= 4
    ensures Name29(n)[3] == Digit(n % 10) && Name29(n)[2] == Digit(n / 10 % 10)
    ensures Name29(n)[1] == Digit(n / 10 / 10 % 10) && Name29(n)[0] == Digit(n / 10 / 10 / 10 % 10)
  {
  }

  lemma SameDigit(a: nat, b: nat)
    requires a < 10 && b < 10
    ensures Digit(a) == Digit(b) ==> a == b
  {
  }

  function NameJob(i: nat): Job {
    Job(Name29(i), Name29(i))
  }

  function NamePoll(i: nat): Poll {
    Poll(Offer(NameJob(i), true, true), Written)
  }

  function NameRun(n: nat): seq<Poll> {
    Tabulate(n, NamePoll)
  }

  function NameJobs(n: nat): seq<Job> {
    Tabulate(n, NameJob)
  }

  lemma {:induction false} NameRunReleases(n: nat)
    requires n <= MAX_REPLAY_ENTRIES
    ensures Recorded(NameRun(n)) == NameJobs(n)
  {
    if n > 0 {
      var m := n - 1;
      NameRunReleases(m);
      NameRunStep(m);
      TabulateSnoc(m, NamePoll);
      TabulateSnoc(m, NameJob);
      RecordedSnoc(NameRun(m), NamePoll(m));
    }
  }

  lemma NameRunReady(n: nat, i: nat)
    requires i < n <= MAX_REPLAY_ENTRIES
    ensures ResultAt(NameRun(n), i).Ready?
  {
    NameRunReleases(i);
    TabulatePrefix(n, i, NamePoll);
    NameRunStep(i);
  }

  /** A window of short ids that has room takes one more job. */
  lemma NameRunStep(m: nat)
    requires m < MAX_REPLAY_ENTRIES && Recorded(NameRun(m)) == NameJobs(m)
    ensures RecordsFrom(FileAfter(NameRun(m)), NamePoll(m))
    ensures Step(FileAfter(NameRun(m)), NamePoll(m)).0 == Ready(NamePoll(m).answer.job)
  {
    FileIsWindow(NameRun(m));
    assert Latest(NameJobs(m)) == NameJobs(m);
    NamesFresh(m);
    Name29Valid(m);
    if m > 0 { NameWindowReadable(m); }
  }

  lemma NameWindowReadable(m: nat)
    requires 0 < m < MAX_REPLAY_ENTRIES && Recorded(NameRun(m)) == NameJobs(m)
    ensures FileAfter(NameRun(m)) == Some(Window(NameJobs(m))) && Readable(Window(NameJobs(m)))
  {
    FileIsWindow(NameRun(m));
    assert Latest(NameJobs(m)) == NameJobs(m);
    NameWindowLengths(m);
    JobsAtMost(NameJobs(m), 58);
    ReadableIff(NameRun(m));
  }

  lemma NameWindowLengths(m: nat)
    ensures forall k :: 0 <= k < m ==>
              && |NameJobs(m)[k].jobId| + |NameJobs(m)[k].nonce| == 58 && StartsAlphanumeric(NameJobs(m)[k].nonce)
  {
    forall k | 0 <= k < m
      ensures |NameJobs(m)[k].jobId| + |NameJobs(m)[k].nonce| == 58 && StartsAlphanumeric(NameJobs(m)[k].nonce)
    {
      Name29Valid(k);
    }
  }

  lemma NamesFresh(m: nat)
    requires m < MAX_REPLAY_ENTRIES
    ensures Name29(m) !in Ids(NameJobs(m)) && Name29(m) !in Nonces(NameJobs(m))
  {
    forall k | 0 <= k < m ensures Name29(k) != Name29(m) {
      if Name29(k) == Name29(m) { Name29Distinct(k, m); }
    }
  }

  /** A run that gets there: 4096 releases of ids and nonces of 29 characters, after which every
      poll fails. */
  lemma LongIdsLockOut()
    ensures var run := NameRun(MAX_REPLAY_ENTRIES);
            && (forall i :: 0 <= i < |run| ==> ResultAt(run, i).Ready?)
            && forall p :: Step(FileAfter(run), p).0 == Failed
  {
    var run := NameRun(MAX_REPLAY_ENTRIES);
    NameRunReleases(MAX_REPLAY_ENTRIES);
    forall i | 0 <= i < |run| ensures ResultAt(run, i).Ready? {
      NameRunReady(MAX_REPLAY_ENTRIES, i);
    }
    assert Latest(NameJobs(MAX_REPLAY_ENTRIES)) == NameJobs(MAX_REPLAY_ENTRIES);
    NameWindowLengths(MAX_REPLAY_ENTRIES);
    FullWindowLocksOut(run, []);
    assert run + [] == run;
  }
}
