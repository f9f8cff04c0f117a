/**
 * File acquisition: `readBytesFromFile` and its helpers in
 * Sources/FoundationEssentials/Data/Data+Reading.swift.
 *
 * The operating system is an oracle: every syscall the code makes
 * (open, fstat, fstatfs, fcntl, mmap, malloc, read, fgetxattr) is answered
 * from a value handed in by the caller of the model.
 */
module DataReading {
  import opened Posix

  // ---------------------------------------------------------------------------
  // Errors and results
  // ---------------------------------------------------------------------------

  /** The errors this file throws. `FileReadPosix` is `CocoaError.errorWithFilePath(path, errno:, reading: true)`. */
  datatype CocoaError =
    | FileReadInvalidFileName
    | UserCancelled
    | FileReadPosix(path: string, errno: int)

  /** `Data.Deallocator`, restricted to the two this file hands out. */
  datatype Deallocator = Free | Unmap

  /**
   * `ReadBytesResult`: the region `bytes` designates (None when it is nil),
   * the number of valid bytes, and how the region must be released.
   */
  datatype ReadBytesResult = ReadBytesResult(bytes: Option<seq<byte>>, length: int, deallocator: Option<Deallocator>)

  // ---------------------------------------------------------------------------
  // read(2) on an open regular file
  // ---------------------------------------------------------------------------

  /**
   * One scripted answer of the kernel to a read call: a failure with an errno,
   * or a transfer of at most `limit` bytes (a short read). Once the script is
   * used up, every read transfers as much as was asked and the file still holds.
   */
  datatype ReadCall = Fails(errno: int) | Delivers(limit: nat)

  /** An open descriptor: the file's bytes, the file offset, and the kernel's remaining script. */
  datatype OpenFile = OpenFile(contents: seq<byte>, offset: nat, script: seq<ReadCall>) {
    predicate Valid() {
      offset <= |contents|
    }
  }

  /** What `read` returns: bytes copied into the caller's buffer, or -1 with errno. */
  datatype SysReadResult = Transferred(data: seq<byte>) | ReadFailed(errno: int)

  /** `read(fd, buffer, n)`: the bytes it copies and the descriptor afterwards. */
  function Read(f: OpenFile, n: nat): (r: (SysReadResult, OpenFile))
    requires f.Valid()
    ensures r.1.Valid() && r.1.contents == f.contents
    ensures r.1.script == if f.script == [] then [] else f.script[1..]
    ensures r.0.Transferred? ==>
              |r.0.data| <= n && r.1.offset == f.offset + |r.0.data| &&
              r.0.data == f.contents[f.offset..r.1.offset]
    ensures r.0.Transferred? && f.script == [] ==> |r.0.data| == Min(n, |f.contents| - f.offset)
    ensures r.0.ReadFailed? ==> f.script != [] && f.script[0] == Fails(r.0.errno) && r.1.offset == f.offset
  {
    var avail := |f.contents| - f.offset;
    if f.script == [] then
      var k := Min(n, avail);
      (Transferred(f.contents[f.offset..f.offset + k]), f.(offset := f.offset + k))
    else
      match f.script[0]
      case Fails(e) => (ReadFailed(e), f.(script := f.script[1..]))
      case Delivers(limit) =>
        var k := Min(Min(n, limit), avail);
        (Transferred(f.contents[f.offset..f.offset + k]), OpenFile(f.contents, f.offset + k, f.script[1..]))
  }

  // ---------------------------------------------------------------------------
  // Cancellation
  // ---------------------------------------------------------------------------

  /**
   * The answer of `localProgress.isCancelled` at the k-th check. `progress` is
   * None when there is no local progress object (reportProgress is false or
   * there is no current progress); then no check ever reports cancellation.
   */
  predicate Cancelled(progress: Option<seq<bool>>, k: nat) {
    progress.Some? && k < |progress.value| && progress.value[k]
  }

  /** No check with index in [from, to) reported cancellation. */
  ghost predicate NotCancelledBetween(progress: Option<seq<bool>>, from: int, to: int) {
    forall k: nat :: from <= k < to ==> !Cancelled(progress, k)
  }

  ghost predicate NeverCancelled(progress: Option<seq<bool>>) {
    forall k: nat :: !Cancelled(progress, k)
  }

  // ---------------------------------------------------------------------------
  // The chunked read loop
  // ---------------------------------------------------------------------------

  /** One read call as the kernel saw it: file offset, bytes asked for, answer. */
  datatype ReadRecord = ReadRecord(offset: nat, requested: nat, result: SysReadResult)

  function BytesOf(c: ReadRecord): nat {
    if c.result.Transferred? then |c.result.data| else 0
  }

  /** The loop goes on after this call: an EINTR to retry, or a full, non-empty read. */
  predicate Continues(c: ReadRecord) {
    match c.result
    case ReadFailed(e) => e == EINTR
    case Transferred(d) => 0 < |d| == c.requested
  }

  /** The loop stops after this call: end of file, or fewer bytes than asked for. */
  predicate EndsRead(c: ReadRecord) {
    c.result.Transferred? && (|c.result.data| == 0 || |c.result.data| < c.requested)
  }

  /**
   * The cancellation checks a run of calls accounts for: one before every
   * call, and one more before each turn, a turn being ended by its one call
   * that is not an EINTR.
   */
  ghost function Polls(calls: seq<ReadRecord>): nat {
    if calls == [] then 0
    else (if calls[0].result == ReadFailed(EINTR) then 1 else 2) + Polls(calls[1..])
  }

  lemma {:induction false} PollsAppend(a: seq<ReadRecord>, b: seq<ReadRecord>)
    ensures Polls(a + b) == Polls(a) + Polls(b)
  {
    if a == [] {
      assert a + b == b;
    } else {
      assert (a + b)[0] == a[0] && (a + b)[1..] == a[1..] + b;
      PollsAppend(a[1..], b);
    }
  }

  lemma AppendAssociates(a: seq<ReadRecord>, b: seq<ReadRecord>, c: seq<ReadRecord>)
    ensures a + (b + c) == (a + b) + c
  {
  }

  /**
   * The inner loop as a definition: check for cancellation, read, and go
   * again on EINTR. Gives the answer, the descriptor afterwards, the calls
   * made and the number of checks made so far.
   */
  ghost function RetryFrom(f: OpenFile, requested: nat, progress: Option<seq<bool>>, checks: nat)
    : (t: (Result<SysReadResult, CocoaError>, OpenFile, seq<ReadRecord>, nat))
    requires f.Valid()
    ensures t.1.Valid() && t.1.contents == f.contents
    decreases |f.script|
  {
    if Cancelled(progress, checks) then (Failure(UserCancelled), f, [], checks + 1)
    else
      var (result, next) := Read(f, requested);
      var call := ReadRecord(f.offset, requested, result);
      if result == ReadFailed(EINTR) then
        var t := RetryFrom(next, requested, progress, checks + 1);
        (t.0, t.1, [call] + t.2, t.3)
      else (Success(result), next, [call], checks + 1)
  }

  /**
   * How many checks a run of the inner loop started after `checks` checks
   * makes: one before every call, and one more when it ends cancelled; the
   * first check that says yes ends it.
   */
  ghost predicate RetryCounts(progress: Option<seq<bool>>, checks: nat,
                              t: (Result<SysReadResult, CocoaError>, OpenFile, seq<ReadRecord>, nat))
  {
    var (r, _, calls, checks') := t;
    && checks < checks'
    && NotCancelledBetween(progress, checks, checks' - 1)
    && (r.Failure? <==> Cancelled(progress, checks' - 1))
    && (r.Failure? ==> r.error == UserCancelled)
    && |calls| == checks' - checks - (if r.Failure? then 1 else 0)
    && (r.Success? ==> checks' + 1 == checks + Polls(calls))
    && (r.Failure? ==> checks' == checks + Polls(calls) + 1)
  }

  /**
   * The calls of a run of the inner loop from descriptor `f`: the same
   * request at the same offset while it fails with EINTR; the answer is the
   * last call's; a read that reads takes the file's next bytes; every
   * failure comes from the kernel's script.
   */
  ghost predicate RetryCalls(f: OpenFile, requested: nat,
                             t: (Result<SysReadResult, CocoaError>, OpenFile, seq<ReadRecord>, nat))
  {
    var (r, after, calls, _) := t;
    && after.Valid() && after.contents == f.contents
    && (r.Failure? ==> after.offset == f.offset)
    && (forall i :: 0 <= i < |calls| ==> calls[i].offset == f.offset && calls[i].requested == requested)
    && (forall i :: 0 <= i < |calls| - 1 ==> calls[i].result == ReadFailed(EINTR))
    && (r.Failure? ==> forall i :: 0 <= i < |calls| ==> calls[i].result == ReadFailed(EINTR))
    && (r.Success? ==> calls != [] && calls[|calls| - 1].result == r.value && r.value != ReadFailed(EINTR))
    && (r.Success? && r.value.Transferred? ==>
          |r.value.data| <= requested && after.offset == f.offset + |r.value.data| &&
          r.value.data == f.contents[f.offset..after.offset])
    && (r.Success? && r.value.ReadFailed? ==> after.offset == f.offset)
    && (f.script == [] ==> after.script == [])
    && (f.script == [] && r.Success? ==>
          r.value.Transferred? && |r.value.data| == Min(requested, |f.contents| - f.offset))
    && (forall x :: x in after.script ==> x in f.script)
    && (r.Success? && r.value.ReadFailed? ==> Fails(r.value.errno) in f.script)
  }

  lemma {:induction false} RetryFromCounts(f: OpenFile, requested: nat, progress: Option<seq<bool>>, checks: nat)
    requires f.Valid()
    ensures RetryCounts(progress, checks, RetryFrom(f, requested, progress, checks))
    decreases |f.script|
  {
    if !Cancelled(progress, checks) {
      var (result, next) := Read(f, requested);
      if result == ReadFailed(EINTR) {
        RetryFromCounts(next, requested, progress, checks + 1);
        var t := RetryFrom(next, requested, progress, checks + 1);
        var calls := [ReadRecord(f.offset, requested, result)] + t.2;
        assert calls[0].result == ReadFailed(EINTR) && calls[1..] == t.2;
      }
    }
  }

  lemma {:induction false} RetryFromCalls(f: OpenFile, requested: nat, progress: Option<seq<bool>>, checks: nat)
    requires f.Valid()
    ensures RetryCalls(f, requested, RetryFrom(f, requested, progress, checks))
    decreases |f.script|
  {
    if !Cancelled(progress, checks) {
      var (result, next) := Read(f, requested);
      if result == ReadFailed(EINTR) {
        RetryFromCalls(next, requested, progress, checks + 1);
        var t := RetryFrom(next, requested, progress, checks + 1);
        var calls := [ReadRecord(f.offset, requested, result)] + t.2;
        forall i | 0 <= i < |calls|
          ensures calls[i].offset == f.offset && calls[i].requested == requested
          ensures i < |calls| - 1 || t.0.Failure? ==> calls[i].result == ReadFailed(EINTR)
        {
          if i > 0 { assert calls[i] == t.2[i - 1]; }
        }
        if t.0.Success? {
          assert calls[|calls| - 1] == t.2[|t.2| - 1];
        }
      }
    }
  }

  /** The calls of a run of the inner loop are contiguous, and each but the last lets the loop go on. */
  lemma RetryCallsContiguous(f: OpenFile, requested: nat,
                             t: (Result<SysReadResult, CocoaError>, OpenFile, seq<ReadRecord>, nat))
    requires RetryCalls(f, requested, t)
    ensures Contiguous(t.2, f.offset) && EndOffset(t.2, f.offset) == t.1.offset
    ensures ContinuedUntilLast(t.2)
  {
    var calls := t.2;
    if calls != [] {
      var last := calls[|calls| - 1];
      assert last.offset == f.offset;
    }
  }

  /**
   * The inner `repeat { ... } while numBytesRead < 0 && errno == EINTR` loop:
   * check for cancellation, issue the read, and issue it again, unchanged,
   * as long as it fails with EINTR.
   */
  method ReadRetryingOnInterrupt(f: OpenFile, requested: nat, progress: Option<seq<bool>>, checksBefore: nat)
    returns (r: Result<SysReadResult, CocoaError>, after: OpenFile, ghost calls: seq<ReadRecord>, checks: nat)
    requires f.Valid()
    ensures (r, after, calls, checks) == RetryFrom(f, requested, progress, checksBefore)
    ensures RetryCounts(progress, checksBefore, (r, after, calls, checks))
    ensures RetryCalls(f, requested, (r, after, calls, checks))
  {
    RetryFromCounts(f, requested, progress, checksBefore);
    RetryFromCalls(f, requested, progress, checksBefore);
    after := f;
    calls := [];
    checks := checksBefore;
    assert calls + RetryFrom(f, requested, progress, checks).2 == RetryFrom(f, requested, progress, checks).2;
    while true
      invariant after.Valid() && after.contents == f.contents && after.offset == f.offset
      invariant var t := RetryFrom(after, requested, progress, checks);
                RetryFrom(f, requested, progress, checksBefore) == (t.0, t.1, calls + t.2, t.3)
      decreases |after.script|
    {
      if Cancelled(progress, checks) {
        checks := checks + 1;
        r := Failure(UserCancelled);
        assert calls + [] == calls;
        return;
      }
      checks := checks + 1;
      var (result, next) := Read(after, requested);
      ghost var call := ReadRecord(f.offset, requested, result);
      if result == ReadFailed(EINTR) {
        AppendAssociates(calls, [call], RetryFrom(next, requested, progress, checks).2);
      }
      calls := calls + [call];
      if result == ReadFailed(EINTR) {
        after := next;
      } else {
        after := next;
        r := Success(result);
        return;
      }
    }
  }

  /** Each call starts where the previous one left the file offset; the first at `start`. */
  ghost predicate Contiguous(calls: seq<ReadRecord>, start: nat) {
    && (calls != [] ==> calls[0].offset == start)
    && forall i, j :: 0 <= i && j == i + 1 < |calls| ==> calls[j].offset == calls[i].offset + BytesOf(calls[i])
  }

  /** The file offset after the calls. */
  ghost function EndOffset(calls: seq<ReadRecord>, start: nat): nat {
    if calls == [] then start else calls[|calls| - 1].offset + BytesOf(calls[|calls| - 1])
  }

  /** Every call asked for min(chunk size clamped to Int32.max, bytes still wanted). */
  ghost predicate SizedRequests(calls: seq<ReadRecord>, start: nat, chunkSize: nat, length: int) {
    forall i :: 0 <= i < |calls| ==>
      calls[i].requested == Min(ClampToInt32(chunkSize), length - (calls[i].offset - start))
  }

  /** Every call but the last let the loop go on. */
  ghost predicate ContinuedUntilLast(calls: seq<ReadRecord>) {
    forall i :: 0 <= i < |calls| - 1 ==> Continues(calls[i])
  }

  /** Two contiguous runs of calls, the second starting where the first ended, make one. */
  lemma AppendContiguous(a: seq<ReadRecord>, b: seq<ReadRecord>, start: nat)
    requires Contiguous(a, start) && Contiguous(b, EndOffset(a, start))
    ensures Contiguous(a + b, start)
    ensures EndOffset(a + b, start) == EndOffset(b, EndOffset(a, start))
  {
    var ab := a + b;
    forall i, j | 0 <= i && j == i + 1 < |ab|
      ensures ab[j].offset == ab[i].offset + BytesOf(ab[i])
    {
      if j < |a| {
        assert ab[j] == a[j] && ab[i] == a[i];
      } else if j == |a| {
        assert ab[j] == b[0] && ab[i] == a[|a| - 1];
      } else {
        assert ab[j] == b[j - |a|] && ab[i] == b[i - |a|];
      }
    }
    if b == [] {
      assert ab == a;
    } else {
      assert ab[|ab| - 1] == b[|b| - 1];
    }
  }

  lemma AppendSized(a: seq<ReadRecord>, b: seq<ReadRecord>, start: nat, chunkSize: nat, length: int)
    requires SizedRequests(a, start, chunkSize, length) && SizedRequests(b, start, chunkSize, length)
    ensures SizedRequests(a + b, start, chunkSize, length)
  {
    var ab := a + b;
    forall i | 0 <= i < |ab|
      ensures ab[i].requested == Min(ClampToInt32(chunkSize), length - (ab[i].offset - start))
    {
      if i < |a| {
        assert ab[i] == a[i];
      } else {
        assert ab[i] == b[i - |a|];
      }
    }
  }

  lemma AppendContinued(a: seq<ReadRecord>, b: seq<ReadRecord>)
    requires ContinuedUntilLast(a) && (a != [] ==> Continues(a[|a| - 1])) && ContinuedUntilLast(b)
    ensures ContinuedUntilLast(a + b)
  {
    var ab := a + b;
    forall i | 0 <= i < |ab| - 1
      ensures Continues(ab[i])
    {
      if i < |a| {
        assert ab[i] == a[i];
      } else {
        assert ab[i] == b[i - |a|];
      }
    }
  }

  /** The kernel copying `data` into the caller's buffer at `at`. */
  method CopyOut(buffer: array<byte>, at: nat, data: seq<byte>)
    requires at + |data| <= buffer.Length
    modifies buffer
    ensures buffer[..at] == old(buffer[..at])
    ensures buffer[at..at + |data|] == data
    ensures buffer[at + |data|..] == old(buffer[at + |data|..])
  {
    forall j | 0 <= j < |data| {
      buffer[at + j] := data[j];
    }
  }

  /**
   * The bytes of `contents` from `start` to `from` are at the head of `buffer`;
   * copying those from `from` to `to` after them extends the head to `to`.
   */
  method StoreChunk(buffer: array<byte>, contents: seq<byte>, start: nat, from: nat, to: nat, data: seq<byte>)
    requires start <= from <= to <= |contents| && to - start <= buffer.Length && data == contents[from..to]
    requires buffer[..from - start] == contents[start..from]
    modifies buffer
    ensures buffer[..to - start] == contents[start..to]
    ensures buffer[to - start..] == old(buffer[to - start..])
  {
    var at := from - start;
    CopyOut(buffer, at, data);
    assert buffer[..at + |data|] == buffer[..at] + buffer[at..at + |data|];
    assert contents[start..to] == contents[start..from] + data;
  }

  /** What one turn of the outer loop did: the read (or the cancellation), and the state it left. */
  datatype Chunk = Chunk(attempt: Result<SysReadResult, CocoaError>, next: OpenFile, retried: seq<ReadRecord>,
                         checks: nat, requested: nat)

  /**
   * What a turn started at descriptor state `f`, after `checks` cancellation
   * checks and with `remaining` bytes still wanted, guarantees about chunk `c`.
   */
  ghost predicate ChunkDone(file: OpenFile, length: int, chunkSize: nat, progress: Option<seq<bool>>,
                            f: OpenFile, checks: nat, remaining: int, c: Chunk)
  {
    ChunkCalls(file, length, chunkSize, f, remaining, c) && ChunkChecks(progress, checks, c)
  }

  /** The calls of one turn, and where they leave the descriptor. */
  ghost predicate ChunkCalls(file: OpenFile, length: int, chunkSize: nat, f: OpenFile, remaining: int, c: Chunk)
  {
    && c.next.Valid() && c.next.contents == f.contents && f.offset <= c.next.offset
    && c.requested == Min(ClampToInt32(chunkSize), remaining)
    && Contiguous(c.retried, f.offset) && EndOffset(c.retried, f.offset) == c.next.offset
    && SizedRequests(c.retried, file.offset, chunkSize, length)
    && ContinuedUntilLast(c.retried)
    && (c.attempt.Failure? ==> c.next.offset == f.offset)
    && (c.attempt.Success? ==>
          c.retried != [] && c.retried[|c.retried| - 1].result == c.attempt.value &&
          c.retried[|c.retried| - 1].requested == c.requested && c.attempt.value != ReadFailed(EINTR))
    && (c.attempt.Success? && c.attempt.value.Transferred? ==>
          |c.attempt.value.data| <= c.requested && c.next.offset == f.offset + |c.attempt.value.data|)
    && (c.attempt.Success? && c.attempt.value.ReadFailed? ==> c.next.offset == f.offset)
    && (f.script == [] ==> c.next.script == [])
    && (f.script == [] && c.attempt.Success? ==>
          c.attempt.value.Transferred? && |c.attempt.value.data| == Min(c.requested, |f.contents| - f.offset))
    && (forall x :: x in c.next.script ==> x in f.script)
    && (c.attempt.Success? && c.attempt.value.ReadFailed? ==> Fails(c.attempt.value.errno) in f.script)
  }

  /**
   * The cancellation checks of one turn: one, then one before every call,
   * and one more if the inner loop is cancelled (a turn cancelled at its
   * first check makes no call); the turn fails exactly when its last check
   * finds the operation cancelled.
   */
  ghost predicate ChunkChecks(progress: Option<seq<bool>>, checks: nat, c: Chunk)
  {
    && checks < c.checks && |c.retried| <= c.checks - checks
    && (c.attempt.Success? ==> c.checks - checks == 1 + |c.retried|)
    && (c.attempt.Failure? ==> c.checks - checks == 1 || c.checks - checks == 2 + |c.retried|)
    && (c.attempt.Success? ==> c.checks == checks + Polls(c.retried))
    && (c.attempt.Failure? ==> checks + Polls(c.retried) < c.checks <= checks + Polls(c.retried) + 2)
    && NotCancelledBetween(progress, checks, c.checks - 1)
    && (c.attempt.Failure? <==> Cancelled(progress, c.checks - 1))
    && (c.attempt.Failure? ==> c.attempt.error == UserCancelled)
  }

  /**
   * One turn's reading as a definition: a cancellation check, then the inner
   * loop on a request of min(clamped chunk size, remaining) bytes.
   */
  ghost function ChunkFrom(f: OpenFile, checks: nat, remaining: int, chunkSize: nat,
                           progress: Option<seq<bool>>): (c: Chunk)
    requires f.Valid() && remaining > 0
    ensures c.next.Valid() && c.next.contents == f.contents
  {
    var requested: nat := Min(ClampToInt32(chunkSize), remaining);
    if Cancelled(progress, checks) then Chunk(Failure(UserCancelled), f, [], checks + 1, requested)
    else
      var t := RetryFrom(f, requested, progress, checks + 1);
      Chunk(t.0, t.1, t.2, t.3, requested)
  }

  /** The turn the definition gives is one the outer loop can take. */
  lemma ChunkFromDone(file: OpenFile, length: int, chunkSize: nat, progress: Option<seq<bool>>,
                                         f: OpenFile, checks: nat, remaining: int)
    requires file.Valid() && f.Valid() && f.contents == file.contents && file.offset <= f.offset
    requires 0 < remaining == length - (f.offset - file.offset)
    ensures var c := ChunkFrom(f, checks, remaining, chunkSize, progress);
            && ChunkDone(file, length, chunkSize, progress, f, checks, remaining, c)
            && (c.attempt.Success? && c.attempt.value.Transferred? ==>
                  c.attempt.value.data == f.contents[f.offset..c.next.offset])
            && (!(c.attempt.Success? && c.attempt.value.Transferred?) ==> c.next.offset == f.offset)
            && f.offset <= c.next.offset <= f.offset + remaining
  {
    ChunkFromCalls(file, length, chunkSize, progress, f, checks, remaining);
    ChunkFromChecks(f, checks, remaining, chunkSize, progress);
  }

  /** The calls of the turn the definition gives, and the bytes they deliver. */
  lemma ChunkFromCalls(file: OpenFile, length: int, chunkSize: nat, progress: Option<seq<bool>>,
                       f: OpenFile, checks: nat, remaining: int)
    requires file.Valid() && f.Valid() && f.contents == file.contents && file.offset <= f.offset
    requires 0 < remaining == length - (f.offset - file.offset)
    ensures var c := ChunkFrom(f, checks, remaining, chunkSize, progress);
            && ChunkCalls(file, length, chunkSize, f, remaining, c)
            && (c.attempt.Success? && c.attempt.value.Transferred? ==>
                  c.attempt.value.data == f.contents[f.offset..c.next.offset])
            && (!(c.attempt.Success? && c.attempt.value.Transferred?) ==> c.next.offset == f.offset)
            && f.offset <= c.next.offset <= f.offset + remaining
  {
    var requested: nat := Min(ClampToInt32(chunkSize), remaining);
    if !Cancelled(progress, checks) {
      var t := RetryFrom(f, requested, progress, checks + 1);
      RetryFromCalls(f, requested, progress, checks + 1);
      RetryCallsContiguous(f, requested, t);
    }
  }

  /** The checks the turn the definition gives makes. */
  lemma ChunkFromChecks(f: OpenFile, checks: nat, remaining: int, chunkSize: nat, progress: Option<seq<bool>>)
    requires f.Valid() && remaining > 0
    ensures ChunkChecks(progress, checks, ChunkFrom(f, checks, remaining, chunkSize, progress))
  {
    var requested: nat := Min(ClampToInt32(chunkSize), remaining);
    if !Cancelled(progress, checks) {
      RetryFromCounts(f, requested, progress, checks + 1);
    }
  }

  /**
   * The reading part of one turn of the outer loop of `readBytesFromFileDescriptor`:
   * the cancellation check, the request size, and the read, retried on EINTR.
   */
  method ReadChunk(file: OpenFile, f: OpenFile, length: Int, chunkSize: nat,
                   progress: Option<seq<bool>>, checks: nat, numBytesRemaining: int)
    returns (attempt: Result<SysReadResult, CocoaError>, next: OpenFile, ghost retried: seq<ReadRecord>,
             checks': nat, numBytesRequested: nat)
    requires file.Valid() && f.Valid() && f.contents == file.contents && file.offset <= f.offset
    requires 0 < numBytesRemaining == length - (f.offset - file.offset)
    ensures Chunk(attempt, next, retried, checks', numBytesRequested) ==
            ChunkFrom(f, checks, numBytesRemaining, chunkSize, progress)
    ensures ChunkDone(file, length, chunkSize, progress, f, checks, numBytesRemaining,
                      Chunk(attempt, next, retried, checks', numBytesRequested))
    ensures attempt.Success? && attempt.value.Transferred? ==>
              attempt.value.data == f.contents[f.offset..next.offset]
    ensures !(attempt.Success? && attempt.value.Transferred?) ==> next.offset == f.offset
    ensures f.offset <= next.offset <= f.offset + numBytesRemaining
  {
    ChunkFromDone(file, length, chunkSize, progress, f, checks, numBytesRemaining);
    // At most Int32.max bytes, and no more than remain.
    numBytesRequested := ClampToInt32(chunkSize);
    if numBytesRequested > numBytesRemaining {
      numBytesRequested := ClampToInt32(numBytesRemaining);
    }
    if Cancelled(progress, checks) {
      attempt, next, retried, checks' := Failure(UserCancelled), f, [], checks + 1;
      return;
    }
    attempt, next, retried, checks' := ReadRetryingOnInterrupt(f, numBytesRequested, progress, checks + 1);
  }

  /** A turn's read, with the bytes landing in the buffer right after those already read. */
  method ReadChunkIntoBuffer(file: OpenFile, f: OpenFile, buffer: array<byte>, length: Int, chunkSize: nat,
                             progress: Option<seq<bool>>, checks: nat, numBytesRemaining: int)
    returns (attempt: Result<SysReadResult, CocoaError>, next: OpenFile, ghost retried: seq<ReadRecord>,
             checks': nat, numBytesRequested: nat)
    requires file.Valid() && f.Valid() && f.contents == file.contents && file.offset <= f.offset
    requires 0 < numBytesRemaining == length - (f.offset - file.offset) && length <= buffer.Length
    requires buffer[..f.offset - file.offset] == file.contents[file.offset..f.offset]
    modifies buffer
    ensures Chunk(attempt, next, retried, checks', numBytesRequested) ==
            ChunkFrom(f, checks, numBytesRemaining, chunkSize, progress)
    ensures ChunkDone(file, length, chunkSize, progress, f, checks, numBytesRemaining,
                      Chunk(attempt, next, retried, checks', numBytesRequested))
    ensures f.offset <= next.offset
    ensures buffer[..next.offset - file.offset] == file.contents[file.offset..next.offset]
    ensures buffer[next.offset - file.offset..] == old(buffer[next.offset - file.offset..])
  {
    attempt, next, retried, checks', numBytesRequested :=
      ReadChunk(file, f, length, chunkSize, progress, checks, numBytesRemaining);
    if attempt.Success? && attempt.value.Transferred? {
      StoreChunk(buffer, file.contents, file.offset, f.offset, next.offset, attempt.value.data);
    }
  }

  /** The outer loop's variables: descriptor, bytes still wanted, calls, checks, outcome, and whether it stopped. */
  datatype ReadLoop = ReadLoop(f: OpenFile, remaining: int, calls: seq<ReadRecord>, checks: nat,
                               r: Result<int, CocoaError>, done: bool)

  /** How the loop reaches a state: the calls it made so far and where they left the descriptor. */
  ghost predicate CallsSoFar(file: OpenFile, length: int, chunkSize: nat, s: ReadLoop) {
    && s.f.Valid() && s.f.contents == file.contents && file.offset <= s.f.offset
    && (file.script == [] ==> s.f.script == [])
    && s.remaining == length - (s.f.offset - file.offset)
    && (length > 0 ==> 0 <= s.remaining)
    && (length <= 0 ==> s.f == file && s.calls == [])
    && Contiguous(s.calls, file.offset) && EndOffset(s.calls, file.offset) == s.f.offset
    && SizedRequests(s.calls, file.offset, chunkSize, length)
    && ContinuedUntilLast(s.calls)
    && |s.calls| <= s.checks
    && (!s.done && s.calls != [] ==> Continues(s.calls[|s.calls| - 1]))
    && (chunkSize == 0 ==> s.f.offset == file.offset)
  }

  /** How the loop stands: still going, stopped by a short read, or failed, and why. */
  ghost predicate StatusSoFar(path: string, progress: Option<seq<bool>>, s: ReadLoop) {
    && (!s.done ==> s.r == Success(0) && NotCancelledBetween(progress, 0, s.checks))
    && (s.r.Failure? ==> s.done)
    && (s.done && s.r.Success? ==> s.calls != [] && EndsRead(s.calls[|s.calls| - 1]))
    && (s.r.Failure? && s.r.error != UserCancelled ==>
          s.calls != [] && s.calls[|s.calls| - 1].result.ReadFailed? &&
          s.calls[|s.calls| - 1].result.errno != EINTR &&
          s.r.error == FileReadPosix(path, s.calls[|s.calls| - 1].result.errno))
    && (s.r == Failure(UserCancelled) <==> s.checks > 0 && Cancelled(progress, s.checks - 1))
    && NotCancelledBetween(progress, 0, s.checks - 1)
  }

  /** A file that answers every read in full, with no cancellation, is read until `length` or its end. */
  ghost predicate WholeFileSoFar(file: OpenFile, chunkSize: nat, progress: Option<seq<bool>>, s: ReadLoop) {
    file.script == [] && chunkSize > 0 && NeverCancelled(progress) ==>
      s.r.Success? && (s.done ==> s.f.offset == |file.contents|)
  }

  /** Every read failure the loop reports is one the kernel's script holds. */
  ghost predicate FailuresFromScript(file: OpenFile, s: ReadLoop) {
    && (forall x :: x in s.f.script ==> x in file.script)
    && (s.r.Failure? && s.r.error.FileReadPosix? ==> Fails(s.r.error.errno) in file.script)
  }

  /** The loop state after a turn that produced chunk `c`: what the loop body does. */
  ghost function Advance(path: string, s: ReadLoop, c: Chunk): ReadLoop {
    var s1 := s.(f := c.next, calls := s.calls + c.retried, checks := c.checks);
    if c.attempt.Failure? then s1.(r := Failure(UserCancelled), done := true)
    else if c.attempt.value.ReadFailed? then s1.(r := Failure(FileReadPosix(path, c.attempt.value.errno)), done := true)
    else if |c.attempt.value.data| == 0 then s1.(done := true)
    else s1.(remaining := s.remaining - |c.attempt.value.data|, done := |c.attempt.value.data| < c.requested)
  }

  /**
   * The outer loop as a definition: from state `s`, the turns it still takes
   * and the state it stops in.
   */
  ghost function LoopFrom(path: string, chunkSize: nat, progress: Option<seq<bool>>, s: ReadLoop): ReadLoop
    requires s.f.Valid()
    decreases !s.done, s.remaining
  {
    if s.done || s.remaining <= 0 then s
    else LoopFrom(path, chunkSize, progress, NextState(path, chunkSize, progress, s))
  }

  /** One turn of the outer loop as a definition: the turn's reading, then its effect on the state. */
  ghost function NextState(path: string, chunkSize: nat, progress: Option<seq<bool>>, s: ReadLoop): (s': ReadLoop)
    requires s.f.Valid() && s.remaining > 0
    ensures s'.f.Valid() && s'.f.contents == s.f.contents
  {
    Advance(path, s, ChunkFrom(s.f, s.checks, s.remaining, chunkSize, progress))
  }

  /** The state the outer loop starts in: nothing read, no check made. */
  function LoopStart(file: OpenFile, length: int): ReadLoop {
    ReadLoop(file, length, [], 0, Success(0), false)
  }

  lemma AdvanceCalls(file: OpenFile, path: string, length: int, chunkSize: nat,
                     progress: Option<seq<bool>>, s: ReadLoop, c: Chunk,
                     s': ReadLoop)
    requires file.Valid() && CallsSoFar(file, length, chunkSize, s) && !s.done && s.remaining > 0
    requires s' == Advance(path, s, c)
    requires ChunkDone(file, length, chunkSize, progress, s.f, s.checks, s.remaining, c)
    ensures CallsSoFar(file, length, chunkSize, s')
  {
    AppendContiguous(s.calls, c.retried, file.offset);
    AppendSized(s.calls, c.retried, file.offset, chunkSize, length);
    AppendContinued(s.calls, c.retried);
    var calls := s.calls + c.retried;
    if c.attempt.Success? {
      assert calls[|calls| - 1] == c.retried[|c.retried| - 1];
    }
  }

  lemma AdvanceStatus(file: OpenFile, path: string, length: int, chunkSize: nat,
                      progress: Option<seq<bool>>, s: ReadLoop, c: Chunk,
                      s': ReadLoop)
    requires StatusSoFar(path, progress, s) && !s.done
    requires s' == Advance(path, s, c)
    requires ChunkDone(file, length, chunkSize, progress, s.f, s.checks, s.remaining, c)
    ensures StatusSoFar(path, progress, s')
  {
    var calls := s.calls + c.retried;
    if c.attempt.Success? {
      assert calls[|calls| - 1] == c.retried[|c.retried| - 1];
    }
  }

  lemma AdvanceWholeFile(file: OpenFile, path: string, length: int, chunkSize: nat,
                         progress: Option<seq<bool>>, s: ReadLoop, c: Chunk,
                         s': ReadLoop)
    requires CallsSoFar(file, length, chunkSize, s) && WholeFileSoFar(file, chunkSize, progress, s)
    requires !s.done && s.remaining > 0
    requires s' == Advance(path, s, c)
    requires ChunkDone(file, length, chunkSize, progress, s.f, s.checks, s.remaining, c)
    ensures WholeFileSoFar(file, chunkSize, progress, s')
  {
    if file.script == [] && chunkSize > 0 && NeverCancelled(progress) {
      assert !Cancelled(progress, c.checks - 1);
    }
  }

  lemma AdvanceFailures(file: OpenFile, path: string, length: int, chunkSize: nat,
                        progress: Option<seq<bool>>, s: ReadLoop, c: Chunk, s': ReadLoop)
    requires FailuresFromScript(file, s) && s.r.Success?
    requires s' == Advance(path, s, c)
    requires ChunkDone(file, length, chunkSize, progress, s.f, s.checks, s.remaining, c)
    ensures FailuresFromScript(file, s')
  {
  }

  /**
   * One turn of the outer loop, from its state before to its state after:
   * read a chunk, then stop on a failure, at end of file or on a short read.
   */
  method ReadLoopTurn(file: OpenFile, path: string, buffer: array<byte>, length: Int, chunkSize: nat,
                      progress: Option<seq<bool>>, f: OpenFile, numBytesRemaining: int,
                      ghost calls: seq<ReadRecord>, checks: nat, r: Result<int, CocoaError>)
    returns (f': OpenFile, numBytesRemaining': int, ghost calls': seq<ReadRecord>, checks': nat,
             r': Result<int, CocoaError>, done': bool, ghost c: Chunk)
    requires file.Valid() && f.Valid() && f.contents == file.contents && file.offset <= f.offset
    requires 0 < numBytesRemaining == length - (f.offset - file.offset) && length <= buffer.Length
    requires buffer[..f.offset - file.offset] == file.contents[file.offset..f.offset]
    modifies buffer
    ensures c == ChunkFrom(f, checks, numBytesRemaining, chunkSize, progress)
    ensures ChunkDone(file, length, chunkSize, progress, f, checks, numBytesRemaining, c)
    ensures ReadLoop(f', numBytesRemaining', calls', checks', r', done') ==
            Advance(path, ReadLoop(f, numBytesRemaining, calls, checks, r, false), c)
    ensures f.offset <= f'.offset
    ensures done' || numBytesRemaining' < numBytesRemaining
    ensures buffer[..f'.offset - file.offset] == file.contents[file.offset..f'.offset]
    ensures buffer[f'.offset - file.offset..] == old(buffer[f'.offset - file.offset..])
  {
    var attempt, next, numBytesRequested;
    ghost var retried;
    attempt, next, retried, checks', numBytesRequested :=
      ReadChunkIntoBuffer(file, f, buffer, length, chunkSize, progress, checks, numBytesRemaining);
    c := Chunk(attempt, next, retried, checks', numBytesRequested);
    calls' := calls + retried;
    f' := next;
    numBytesRemaining', r' := numBytesRemaining, r;
    if attempt.Failure? {
      r', done' := Failure(UserCancelled), true;
    } else if attempt.value.ReadFailed? {
      r', done' := Failure(FileReadPosix(path, attempt.value.errno)), true;
    } else {
      var numBytesRead := |attempt.value.data|;
      if numBytesRead == 0 {
        // End of file: return what was read so far.
        done' := true;
      } else {
        numBytesRemaining' := numBytesRemaining - numBytesRead;
        // A short read ends the loop.
        done' := numBytesRead < numBytesRequested;
      }
    }
  }

  /** One turn of the outer loop: the state the definition gives next, and the chunk's bytes in the buffer. */
  method ReadLoopStep(file: OpenFile, path: string, buffer: array<byte>, length: Int, chunkSize: nat,
                      progress: Option<seq<bool>>, f: OpenFile, numBytesRemaining: int,
                      ghost calls: seq<ReadRecord>, checks: nat, r: Result<int, CocoaError>)
    returns (f': OpenFile, numBytesRemaining': int, ghost calls': seq<ReadRecord>, checks': nat,
             r': Result<int, CocoaError>, done': bool)
    requires file.Valid() && length <= buffer.Length && numBytesRemaining > 0
    requires Positioned(file, length, ReadLoop(f, numBytesRemaining, calls, checks, r, false))
    requires buffer[..f.offset - file.offset] == file.contents[file.offset..f.offset]
    modifies buffer
    ensures Positioned(file, length, ReadLoop(f', numBytesRemaining', calls', checks', r', done'))
    ensures SameOutcome(path, chunkSize, progress, ReadLoop(f', numBytesRemaining', calls', checks', r', done'),
                        ReadLoop(f, numBytesRemaining, calls, checks, r, false))
    ensures f.offset <= f'.offset
    ensures done' || numBytesRemaining' < numBytesRemaining
    ensures buffer[..f'.offset - file.offset] == file.contents[file.offset..f'.offset]
    ensures forall i :: f'.offset - file.offset <= i < buffer.Length ==> buffer[i] == old(buffer[i])
  {
    ghost var s := ReadLoop(f, numBytesRemaining, calls, checks, r, false);
    ghost var c;
    f', numBytesRemaining', calls', checks', r', done', c :=
      ReadLoopTurn(file, path, buffer, length, chunkSize, progress, f, numBytesRemaining, calls, checks, r);
    LoopFromNext(path, chunkSize, progress, s);
  }

  /**
   * The outer loop makes one check before every turn and one before every
   * call, so a loop that is not cancelled has made exactly `Polls(calls)`
   * checks, and a cancelled one one or two more.
   */
  lemma {:induction false} LoopFromCountsChecks(path: string, chunkSize: nat, progress: Option<seq<bool>>, s: ReadLoop)
    requires s.f.Valid() && s.r.Success? && s.checks == Polls(s.calls)
    ensures var e := LoopFrom(path, chunkSize, progress, s);
            && (e.r != Failure(UserCancelled) ==> e.checks == Polls(e.calls))
            && (e.r == Failure(UserCancelled) ==> Polls(e.calls) < e.checks <= Polls(e.calls) + 2)
    decreases !s.done, s.remaining
  {
    if !s.done && s.remaining > 0 {
      var c := ChunkFrom(s.f, s.checks, s.remaining, chunkSize, progress);
      ChunkFromChecks(s.f, s.checks, s.remaining, chunkSize, progress);
      PollsAppend(s.calls, c.retried);
      var s' := Advance(path, s, c);
      if s'.r.Success? {
        LoopFromCountsChecks(path, chunkSize, progress, s');
      }
    }
  }

  /** Where the descriptor stands: the same file, never before the start, and `remaining` the bytes still wanted. */
  ghost predicate Positioned(file: OpenFile, length: int, s: ReadLoop) {
    && s.f.Valid() && s.f.contents == file.contents && file.offset <= s.f.offset
    && s.remaining == length - (s.f.offset - file.offset)
    && s.f.offset - file.offset <= Max(length, 0)
  }

  /** Everything the outer loop keeps true from turn to turn. */
  ghost predicate LoopInvariant(file: OpenFile, path: string, length: int, chunkSize: nat,
                                progress: Option<seq<bool>>, s: ReadLoop) {
    && CallsSoFar(file, length, chunkSize, s)
    && StatusSoFar(path, progress, s)
    && WholeFileSoFar(file, chunkSize, progress, s)
    && FailuresFromScript(file, s)
  }

  /** The definition keeps the loop's invariant from any state that has it to where the loop stops. */
  lemma {:induction false} LoopFromKeeps(file: OpenFile, path: string, length: int, chunkSize: nat,
                                         progress: Option<seq<bool>>, s: ReadLoop)
    requires file.Valid() && LoopInvariant(file, path, length, chunkSize, progress, s)
    ensures LoopInvariant(file, path, length, chunkSize, progress, LoopFrom(path, chunkSize, progress, s))
    decreases !s.done, s.remaining
  {
    if !s.done && s.remaining > 0 {
      var c := ChunkFrom(s.f, s.checks, s.remaining, chunkSize, progress);
      ChunkFromDone(file, length, chunkSize, progress, s.f, s.checks, s.remaining);
      var s' := Advance(path, s, c);
      AdvanceCalls(file, path, length, chunkSize, progress, s, c, s');
      AdvanceStatus(file, path, length, chunkSize, progress, s, c, s');
      AdvanceWholeFile(file, path, length, chunkSize, progress, s, c, s');
      AdvanceFailures(file, path, length, chunkSize, progress, s, c, s');
      LoopFromKeeps(file, path, length, chunkSize, progress, s');
    }
  }

  /** A loop that has not stopped ends where its next state ends. */
  lemma LoopFromNext(path: string, chunkSize: nat, progress: Option<seq<bool>>, s: ReadLoop)
    requires s.f.Valid() && !s.done && s.remaining > 0
    ensures LoopFrom(path, chunkSize, progress, s) == LoopFrom(path, chunkSize, progress, NextState(path, chunkSize, progress, s))
  {
  }

  /** A loop that has stopped takes no more turns. */
  lemma LoopFromStopped(path: string, chunkSize: nat, progress: Option<seq<bool>>, s: ReadLoop)
    requires s.f.Valid() && (s.done || s.remaining <= 0)
    ensures LoopFrom(path, chunkSize, progress, s) == s
  {
  }

  /** Two loop states from which the loop ends in the same state. */
  ghost predicate SameOutcome(path: string, chunkSize: nat, progress: Option<seq<bool>>, s: ReadLoop, t: ReadLoop) {
    s.f.Valid() && t.f.Valid() && LoopFrom(path, chunkSize, progress, s) == LoopFrom(path, chunkSize, progress, t)
  }

  /** Where the loop stops, it has done what the definition says, with the check counts it promises. */
  lemma LoopEndsAsDefined(file: OpenFile, path: string, length: int, chunkSize: nat,
                          progress: Option<seq<bool>>, s: ReadLoop,
                          r: Result<int, CocoaError>, after: OpenFile, calls: seq<ReadRecord>, checks: nat)
    requires file.Valid()
    requires (s.done || s.remaining <= 0) && SameOutcome(path, chunkSize, progress, s, LoopStart(file, length))
    requires r == Returned(length, s.remaining, s.r) && after == s.f && calls == s.calls && checks == s.checks
    ensures LoopInvariant(file, path, length, chunkSize, progress, s)
    ensures r != Failure(UserCancelled) ==> checks == Polls(calls)
    ensures r == Failure(UserCancelled) ==> Polls(calls) < checks <= Polls(calls) + 2
    ensures ReadsAsDefined(file, path, length, chunkSize, progress, r, after, calls, checks)
  {
    LoopFromStopped(path, chunkSize, progress, s);
    LoopFromKeeps(file, path, length, chunkSize, progress, LoopStart(file, length));
    LoopFromCountsChecks(path, chunkSize, progress, LoopStart(file, length));
  }

  /** What the method returns once the loop is over: the failure, or `length - numBytesRemaining`. */
  function Returned(length: int, numBytesRemaining: int, r: Result<int, CocoaError>): Result<int, CocoaError> {
    if r.Success? then Success(length - numBytesRemaining) else r
  }

  /** The outcome, descriptor, calls and check count are those the loop definition gives from its start. */
  ghost predicate ReadsAsDefined(file: OpenFile, path: string, length: int, chunkSize: nat,
                                 progress: Option<seq<bool>>, r: Result<int, CocoaError>, after: OpenFile,
                                 calls: seq<ReadRecord>, checks: nat) {
    && file.Valid()
    && var s := LoopFrom(path, chunkSize, progress, LoopStart(file, length));
       r == Returned(length, s.remaining, s.r) && after == s.f && calls == s.calls && checks == s.checks
  }

  /** What a finished loop guarantees about the calls, the count returned, and cancellation. */
  lemma ReadLoopFinished(file: OpenFile, path: string, length: int, chunkSize: nat,
                         progress: Option<seq<bool>>, s: ReadLoop,
                         r: Result<int, CocoaError>, after: OpenFile, calls: seq<ReadRecord>, checks: nat)
    requires file.Valid() && (s.done || s.remaining <= 0)
    requires LoopInvariant(file, path, length, chunkSize, progress, s)
    requires r == Returned(length, s.remaining, s.r) && after == s.f && calls == s.calls && checks == s.checks
    ensures after.Valid() && after.contents == file.contents && file.offset <= after.offset
    ensures Contiguous(calls, file.offset) && EndOffset(calls, file.offset) == after.offset
    ensures SizedRequests(calls, file.offset, chunkSize, length)
    ensures ContinuedUntilLast(calls)
    ensures |calls| <= checks
    ensures after.offset - file.offset <= Max(length, 0)
    ensures r.Success? ==> r.value == after.offset - file.offset
    ensures r.Success? && r.value < length ==> calls != [] && EndsRead(calls[|calls| - 1])
    ensures r.Failure? && r.error != UserCancelled ==>
              calls != [] && calls[|calls| - 1].result.ReadFailed? &&
              calls[|calls| - 1].result.errno != EINTR &&
              r.error == FileReadPosix(path, calls[|calls| - 1].result.errno) &&
              Fails(r.error.errno) in file.script
    ensures r == Failure(UserCancelled) <==> checks > 0 && Cancelled(progress, checks - 1)
    ensures NotCancelledBetween(progress, 0, checks - 1)
    ensures file.script == [] && chunkSize > 0 && NeverCancelled(progress) ==>
              r == Success(Min(Max(length, 0), |file.contents| - file.offset))
    ensures chunkSize == 0 && r.Success? ==> r.value == 0
  {
  }

  /**
   * The `while numBytesRemaining > 0` loop of `readBytesFromFileDescriptor`,
   * run from its first turn until it stops; its final state is the one the
   * definition gives.
   */
  method ReadLoopRun(file: OpenFile, path: string, buffer: array<byte>, length: Int,
                     chunkSize: nat, progress: Option<seq<bool>>)
    returns (f: OpenFile, numBytesRemaining: int, ghost calls: seq<ReadRecord>, checks: nat,
             r: Result<int, CocoaError>, done: bool)
    requires file.Valid()
    requires length <= buffer.Length
    modifies buffer
    ensures done || numBytesRemaining <= 0
    ensures Positioned(file, length, ReadLoop(f, numBytesRemaining, calls, checks, r, done))
    ensures SameOutcome(path, chunkSize, progress, ReadLoop(f, numBytesRemaining, calls, checks, r, done),
                        LoopStart(file, length))
    ensures buffer[..f.offset - file.offset] == file.contents[file.offset..f.offset]
    ensures forall i :: f.offset - file.offset <= i < buffer.Length ==> buffer[i] == old(buffer[i])
  {
    ghost var final := LoopFrom(path, chunkSize, progress, LoopStart(file, length));
    f := file;
    numBytesRemaining := length;
    calls := [];
    checks := 0;
    r := Success(0);
    done := false;
    while !done && numBytesRemaining > 0
      invariant Positioned(file, length, ReadLoop(f, numBytesRemaining, calls, checks, r, done))
      invariant LoopFrom(path, chunkSize, progress, ReadLoop(f, numBytesRemaining, calls, checks, r, done)) == final
      invariant buffer[..f.offset - file.offset] == file.contents[file.offset..f.offset]
      invariant forall i :: f.offset - file.offset <= i < buffer.Length ==> buffer[i] == old(buffer[i])
      decreases !done, numBytesRemaining
    {
      f, numBytesRemaining, calls, checks, r, done :=
        ReadLoopStep(file, path, buffer, length, chunkSize, progress, f, numBytesRemaining, calls, checks, r);
    }
  }

  /**
   * `readBytesFromFileDescriptor`: fill `buffer` with up to `length` bytes read
   * from the descriptor in chunks of at most min(chunkSize, Int32.max, remaining)
   * bytes, and return how many bytes arrived. The ghost `calls` is every read
   * call the kernel saw; `checks` counts the cancellation checks made.
   */
  method ReadBytesFromFileDescriptor(file: OpenFile, path: string, buffer: array<byte>, length: Int,
                                     chunkSize: nat, progress: Option<seq<bool>>)
    returns (r: Result<int, CocoaError>, after: OpenFile, ghost calls: seq<ReadRecord>, checks: nat)
    requires file.Valid()
    requires length <= buffer.Length
    modifies buffer
    // the calls, as the kernel saw them
    ensures after.Valid() && after.contents == file.contents && file.offset <= after.offset
    ensures Contiguous(calls, file.offset) && EndOffset(calls, file.offset) == after.offset
    ensures SizedRequests(calls, file.offset, chunkSize, length)
    ensures ContinuedUntilLast(calls)
    ensures |calls| <= checks
    // the bytes, as the caller sees them
    ensures after.offset - file.offset <= Max(length, 0)
    ensures buffer[..after.offset - file.offset] == file.contents[file.offset..after.offset]
    ensures buffer[after.offset - file.offset..] == old(buffer[after.offset - file.offset..])
    ensures r.Success? ==> r.value == after.offset - file.offset
    ensures r.Success? && r.value < length ==> calls != [] && EndsRead(calls[|calls| - 1])
    ensures r.Failure? && r.error != UserCancelled ==>
              calls != [] && calls[|calls| - 1].result.ReadFailed? &&
              calls[|calls| - 1].result.errno != EINTR &&
              r.error == FileReadPosix(path, calls[|calls| - 1].result.errno) &&
              Fails(r.error.errno) in file.script
    // cancellation
    ensures r == Failure(UserCancelled) <==> checks > 0 && Cancelled(progress, checks - 1)
    ensures NotCancelledBetween(progress, 0, checks - 1)
    // a regular file that answers every read in full is read up to `length` or its end
    ensures file.script == [] && chunkSize > 0 && NeverCancelled(progress) ==>
              r == Success(Min(Max(length, 0), |file.contents| - file.offset))
    // a chunk size of 0 asks for 0 bytes, and the first empty answer ends the loop
    ensures chunkSize == 0 && r.Success? ==> r.value == 0
    // one check before every turn and every call, and at most two more when cancelled
    ensures r != Failure(UserCancelled) ==> checks == Polls(calls)
    ensures r == Failure(UserCancelled) ==> Polls(calls) < checks <= Polls(calls) + 2
    // and exactly what the definition does
    ensures ReadsAsDefined(file, path, length, chunkSize, progress, r, after, calls, checks)
  {
    var f, numBytesRemaining, status, done;
    f, numBytesRemaining, calls, checks, status, done := ReadLoopRun(file, path, buffer, length, chunkSize, progress);
    after := f;
    r := Returned(length, numBytesRemaining, status);
    ghost var e := ReadLoop(f, numBytesRemaining, calls, checks, status, done);
    LoopEndsAsDefined(file, path, length, chunkSize, progress, e, r, after, calls, checks);
    ReadLoopFinished(file, path, length, chunkSize, progress, e, r, after, calls, checks);
  }


  // ---------------------------------------------------------------------------
  // shouldMapFileDescriptor
  // ---------------------------------------------------------------------------

  /** `Data.ReadingOptions`. */
  datatype ReadingOption = MappedIfSafe | Uncached | AlwaysMapped

  /** The compile-time conditions the file tests: FOUNDATION_FRAMEWORK, canImport(Darwin), NO_FILESYSTEM. */
  datatype Build = Build(foundationFramework: bool, darwin: bool, noFileSystem: bool)

  /** Darwin's `statfs.f_flags` bits the mapping decision looks at. */
  const MNT_LOCAL: bv32 := 0x1000
  const MNT_REMOVABLE: bv32 := 0x200

  /** Darwin's `PROTECTION_CLASS_A`: the file is unreadable while the device is locked. */
  const PROTECTION_CLASS_A: int := 1

  /**
   * What the mapping checks ask the system: `fcntl(fd, F_GETPROTECTIONCLASS)`,
   * `fstatfs` (None when it fails), and the answer of the private compression
   * check for the path's file system representation.
   */
  datatype MappingProbe = MappingProbe(protectionClass: int, statfsFlags: Option<bv32>,
                                       compressionSafeForMapping: bool)

  /**
   * The protection-class test of Data+Reading.swift line 70, with the class it
   * excludes as a parameter: the code as written excludes -1, the comment beside
   * it says the excluded class is Class A.
   */
  predicate ProtectionClassIsSafeToMap(protectionClass: int, excludedClass: int) {
    protectionClass >= 0 && protectionClass != excludedClass
  }

  /** A local, non-removable volume. */
  predicate OnLocalFixedVolume(statfsFlags: Option<bv32>) {
    statfsFlags.Some? && statfsFlags.value & MNT_LOCAL != 0 && statfsFlags.value & MNT_REMOVABLE == 0
  }

  /**
   * `shouldMapFileDescriptor`, with the protection class it refuses as a
   * parameter; `ShouldMapFileDescriptor` below is the code as written.
   */
  function ShouldMap(options: set<ReadingOption>, build: Build, probe: MappingProbe, hasFileSystemRepresentation: bool,
                     excludedClass: int): (r: bool)
    ensures AlwaysMapped in options ==> r
    ensures AlwaysMapped !in options && MappedIfSafe !in options ==> !r
    ensures !(build.foundationFramework && !build.noFileSystem) ==> (r <==> AlwaysMapped in options)
    ensures AlwaysMapped !in options && r ==>
              ProtectionClassIsSafeToMap(probe.protectionClass, excludedClass) &&
              OnLocalFixedVolume(probe.statfsFlags) &&
              (hasFileSystemRepresentation ==> probe.compressionSafeForMapping)
  {
    if AlwaysMapped in options then true
    else if MappedIfSafe in options then
      if build.foundationFramework && !build.noFileSystem then
        // Failures from here on mean "do not map".
        if ProtectionClassIsSafeToMap(probe.protectionClass, excludedClass) then
          if OnLocalFixedVolume(probe.statfsFlags) then
            if !hasFileSystemRepresentation then true else probe.compressionSafeForMapping
          else false
        else false
      else false
    else false
  }

  /** `shouldMapFileDescriptor` as written: the "Class A" test compares with -1. */
  function ShouldMapFileDescriptor(options: set<ReadingOption>, build: Build, probe: MappingProbe,
                                   hasFileSystemRepresentation: bool): bool {
    ShouldMap(options, build, probe, hasFileSystemRepresentation, -1)
  }

  /** Every check passing is enough: `.mappedIfSafe` maps a safe file in the framework build. */
  lemma MappedIfSafeMapsSafeFiles(options: set<ReadingOption>, build: Build, probe: MappingProbe,
                                 hasFileSystemRepresentation: bool, excludedClass: int)
    requires MappedIfSafe in options && build.foundationFramework && !build.noFileSystem
    requires ProtectionClassIsSafeToMap(probe.protectionClass, excludedClass) && OnLocalFixedVolume(probe.statfsFlags)
    requires hasFileSystemRepresentation ==> probe.compressionSafeForMapping
    ensures ShouldMap(options, build, probe, hasFileSystemRepresentation, excludedClass)
  {
  }

  /** As written, the protection-class test only rejects negative answers (fcntl failing), so Class A files are mapped. */
  lemma ClassAFilesAreMappedAsWritten(probe: MappingProbe)
    requires probe.protectionClass == PROTECTION_CLASS_A
    requires OnLocalFixedVolume(probe.statfsFlags) && probe.compressionSafeForMapping
    ensures forall pc :: ProtectionClassIsSafeToMap(pc, -1) <==> pc >= 0
    ensures ShouldMapFileDescriptor({MappedIfSafe}, Build(true, true, false), probe, true)
  {
  }

  /** With Class A as the excluded class, `.mappedIfSafe` never maps a Class A file. */
  lemma ClassAFilesAreNeverMappedIfSafe(options: set<ReadingOption>, build: Build, probe: MappingProbe)
    requires AlwaysMapped !in options && probe.protectionClass == PROTECTION_CLASS_A
    ensures forall hasFileSystemRepresentation: bool ::
              !ShouldMap(options, build, probe, hasFileSystemRepresentation, PROTECTION_CLASS_A)
  {
  }

  // ---------------------------------------------------------------------------
  // readExtendedAttributesFromFileDescriptor
  // ---------------------------------------------------------------------------

  /** The stack buffer the first `fgetxattr` call uses. */
  const MAX_XATTR_LENGTH: nat := 1000

  /**
   * What `fgetxattr` finds for one name: an error (ENOATTR when there is no
   * such attribute), or a stored value. For a value larger than the stack
   * buffer, `unchangedOnReread` says whether the third call, into a buffer of
   * the size the second call reported, returns that same size.
   */
  datatype XattrAnswer = Unreadable(errno: int) | Stored(value: seq<byte>, unchangedOnReread: bool)

  function XattrLookup(xattrs: map<string, XattrAnswer>, name: string): XattrAnswer {
    if name in xattrs then xattrs[name] else Unreadable(ENOATTR)
  }

  /** The value of `name` ends up in the output: it fits the stack buffer, or the sized re-read returns it whole. */
  predicate AttributeRecovered(xattrs: map<string, XattrAnswer>, name: string) {
    var a := XattrLookup(xattrs, name);
    a.Stored? && (|a.value| <= MAX_XATTR_LENGTH || a.unchangedOnReread)
  }

  /** The attributes the reading code hands back: each requested name whose value it recovers, with that value. */
  function RecoveredAttributes(build: Build, xattrs: map<string, XattrAnswer>, attrsToRead: seq<string>)
    : (m: map<string, seq<byte>>)
    ensures !build.darwin || build.noFileSystem ==> m == map[]
    ensures forall name :: name in m ==> name in attrsToRead && AttributeRecovered(xattrs, name)
    ensures build.darwin && !build.noFileSystem ==>
              forall name :: name in attrsToRead && AttributeRecovered(xattrs, name) ==>
                name in m && m[name] == XattrLookup(xattrs, name).value
  {
    if !build.darwin || build.noFileSystem then map[]
    else map name | name in attrsToRead && AttributeRecovered(xattrs, name) :: XattrLookup(xattrs, name).value
  }

  /**
   * `readExtendedAttributesFromFileDescriptor`: for each requested name, the
   * attribute's value when it can be read; a name whose reads fail is left out.
   * On builds without Darwin or with NO_FILESYSTEM the result is empty.
   */
  method ReadExtendedAttributesFromFileDescriptor(build: Build, xattrs: map<string, XattrAnswer>,
                                                  attrsToRead: seq<string>)
    returns (output: map<string, seq<byte>>)
    ensures output == RecoveredAttributes(build, xattrs, attrsToRead)
  {
    output := map[];
    if !build.darwin || build.noFileSystem {
      // No extended attributes on this platform.
      return;
    }
    for i := 0 to |attrsToRead|
      invariant forall name :: name in output <==> name in attrsToRead[..i] && AttributeRecovered(xattrs, name)
      invariant forall name :: name in output ==> output[name] == XattrLookup(xattrs, name).value
    {
      var key := attrsToRead[i];
      match XattrLookup(xattrs, key)
      case Unreadable(_) =>
        // Missing attribute or any other error: nothing is recorded.
      case Stored(value, unchangedOnReread) =>
        if |value| <= MAX_XATTR_LENGTH {
          output := output[key := value];
        } else if unchangedOnReread {
          // ERANGE: the size query and the sized read agree, so the heap copy is kept.
          output := output[key := value];
        }
        // Otherwise the sized read disagrees and the heap buffer is freed.
    }
    assert attrsToRead[..|attrsToRead|] == attrsToRead;
  }

  // ---------------------------------------------------------------------------
  // readBytesFromFile
  // ---------------------------------------------------------------------------

  /** `st_mode & S_IFMT`. */
  datatype FileType = Regular | Directory | CharacterDevice | BlockDevice | Fifo | SymbolicLink | Socket

  /**
   * Everything the system answers while one file is read: the path's file
   * system representation (None when it has none), the errno of a failing
   * `open` or `fstat`, the file's type, bytes (`st_size` is their number) and
   * `st_blksize`, the mapping probe, a failing `mmap`'s errno, whether `malloc`
   * fails, the scripted read answers, the extended attributes, whether a
   * current `Progress` exists, and the answers of its cancellation checks.
   */
  datatype FileOracle = FileOracle(
    fileSystemRepresentation: Option<string>,
    openErrno: Option<int>,
    fstatErrno: Option<int>,
    fileType: FileType,
    contents: seq<byte>,
    blockSize: nat,
    probe: MappingProbe,
    mmapErrno: Option<int>,
    mallocFails: bool,
    readAnswers: seq<ReadCall>,
    xattrs: map<string, XattrAnswer>,
    currentProgress: bool,
    cancellations: seq<bool>)

  /**
   * Whether `readBytesFromFile` maps the file: `shouldMapFileDescriptor`,
   * which is not consulted under NO_FILESYSTEM, asked about this file's probe
   * and its path.
   */
  predicate MapsFile(options: set<ReadingOption>, build: Build, oracle: FileOracle) {
    !build.noFileSystem && ShouldMapFileDescriptor(options, build, oracle.probe, oracle.fileSystemRepresentation.Some?)
  }

  /** The resources the reading code acquires and releases, in order. */
  datatype Event = OpenCalled | Closed | Mapped | Allocated | Freed

  /**
   * The guards between `fstat` and the choice of strategy: the number of bytes
   * to read, `min(st_size, maxLength ?? Int.max)`, or the error thrown.
   */
  function FileSizeToRead(path: string, fstatErrno: Option<int>, fileType: FileType, size: nat, maxLength: Option<Int>)
    : (r: Result<Int, CocoaError>)
    ensures fstatErrno.Some? ==> r == Failure(FileReadPosix(path, fstatErrno.value))
    ensures fstatErrno.None? && size > INT_MAX ==> r == Failure(FileReadPosix(path, EFBIG))
    ensures fstatErrno.None? && size <= INT_MAX && fileType == Directory ==> r == Failure(FileReadPosix(path, EISDIR))
    ensures fstatErrno.None? && size <= INT_MAX && fileType != Directory && fileType != Regular ==>
              r == Failure(FileReadPosix(path, EACCES))
    ensures fstatErrno.None? && size <= INT_MAX && fileType == Regular && maxLength.Some? && maxLength.value < 0 ==>
              r == Failure(FileReadPosix(path, ENOMEM))
    ensures r.Success? <==>
              fstatErrno.None? && size <= INT_MAX && fileType == Regular && (maxLength.None? || maxLength.value >= 0)
    ensures r.Success? ==>
              0 <= r.value <= size && (r.value == size || (maxLength.Some? && r.value == maxLength.value))
    ensures r.Success? && maxLength.Some? ==> r.value <= maxLength.value
  {
    if fstatErrno.Some? then Failure(FileReadPosix(path, fstatErrno.value))
    // `Data` counts bytes with an Int.
    else if size > INT_MAX then Failure(FileReadPosix(path, EFBIG))
    else
      var fileSize := Min(size, maxLength.GetOr(INT_MAX));
      if fileType != Regular then
        Failure(FileReadPosix(path, if fileType == Directory then EISDIR else EACCES))
      else if fileSize < 0 then Failure(FileReadPosix(path, ENOMEM))
      else Success(fileSize)
  }

  /** The `Progress` the reading code creates: present when progress is reported and there is a current one. */
  function LocalProgress(reportProgress: bool, oracle: FileOracle): (p: Option<seq<bool>>)
    ensures p.Some? <==> reportProgress && oracle.currentProgress
  {
    if reportProgress && oracle.currentProgress then Some(oracle.cancellations) else None
  }

  /**
   * What a successful read hands back: nothing for an empty read, a mapping
   * of the first `fileSize` bytes, or a heap buffer of `fileSize` bytes whose
   * first `length` are the file's; a non-empty result always carries bytes and
   * a deallocator; a file whose reads all succeed in full, with no
   * cancellation, fills the heap buffer.
   */
  ghost predicate ReadOutcome(path: string, oracle: FileOracle, build: Build, reportProgress: bool,
                              maxLength: Option<Int>, options: set<ReadingOption>, result: ReadBytesResult)
  {
    var size := FileSizeToRead(path, oracle.fstatErrno, oracle.fileType, |oracle.contents|, maxLength);
    var mapped := MapsFile(options, build, oracle);
    && size.Success?
    && (size.value == 0 ==> result == ReadBytesResult(None, 0, None))
    && (size.value > 0 && mapped ==>
          result == ReadBytesResult(Some(oracle.contents[..size.value]), size.value, Some(Unmap)))
    && (size.value > 0 && !mapped ==>
          && result.deallocator == Some(Free) && result.bytes.Some?
          && |result.bytes.value| == size.value && 0 <= result.length <= size.value
          && result.bytes.value[..result.length] == oracle.contents[..result.length]
          && ((oracle.readAnswers == [] && oracle.blockSize > 0 && NeverCancelled(LocalProgress(reportProgress, oracle)))
                ==> result.length == size.value)
          && (oracle.blockSize == 0 ==> result.length == 0))
    && (result.length != 0 ==> result.bytes.Some? && result.deallocator.Some?)
  }

  /**
   * Why a heap read can fail: a cancellation check of the local `Progress`
   * answered yes, or `read` reported an errno other than EINTR, which is
   * thrown with the path.
   */
  ghost predicate ReadFailureExplained(path: string, oracle: FileOracle, reportProgress: bool, e: CocoaError) {
    || (e == UserCancelled && !NeverCancelled(LocalProgress(reportProgress, oracle)))
    || (e.FileReadPosix? && e.path == path && e.errno != EINTR && Fails(e.errno) in oracle.readAnswers)
  }

  /**
   * Where the heap read of `size` bytes stops, by the outer loop's definition:
   * the descriptor at offset 0, `st_blksize` as the chunk size, and the local
   * `Progress` as the cancellation source.
   */
  ghost function HeapReadLoop(path: string, oracle: FileOracle, reportProgress: bool, size: int): ReadLoop {
    LoopFrom(path, oracle.blockSize, LocalProgress(reportProgress, oracle),
             LoopStart(OpenFile(oracle.contents, 0, oracle.readAnswers), size))
  }

  /** What the heap read returns, by the definition: the count of bytes read, or the error it throws. */
  ghost function HeapRead(path: string, oracle: FileOracle, reportProgress: bool, size: int): Result<int, CocoaError> {
    var e := HeapReadLoop(path, oracle, reportProgress, size);
    Returned(size, e.remaining, e.r)
  }

  /** The heap read's definition is the one the read loop follows. */
  lemma HeapReadReturns(path: string, oracle: FileOracle, reportProgress: bool, size: int,
                        n: Result<int, CocoaError>, after: OpenFile, calls: seq<ReadRecord>, checks: nat)
    requires ReadsAsDefined(OpenFile(oracle.contents, 0, oracle.readAnswers), path, size, oracle.blockSize,
                            LocalProgress(reportProgress, oracle), n, after, calls, checks)
    ensures HeapRead(path, oracle, reportProgress, size) == n
  {
  }

  /**
   * The heap branch, once `malloc` has succeeded: the result is the read
   * loop's, with the buffer kept on success and freed on failure.
   */
  ghost predicate HeapOutcome(path: string, oracle: FileOracle, reportProgress: bool, size: int,
                              r: Result<ReadBytesResult, CocoaError>, trace: seq<Event>)
  {
    var n := HeapRead(path, oracle, reportProgress, size);
    && (n.Failure? ==> r == Failure(n.error) && trace == [Allocated, Freed])
    && (n.Success? ==> r.Success? && r.value.length == n.value && trace == [Allocated])
    && (r.Failure? ==> ReadFailureExplained(path, oracle, reportProgress, r.error))
  }

  /**
   * Everything that happens once the descriptor is open, branch by branch:
   * a failed guard is thrown; size 0 gives the empty result; a mapping either
   * fails with `mmap`'s errno or holds the first `fileSize` bytes; a failing
   * `malloc` throws ENOMEM; the heap read fails only as `ReadFailureExplained`
   * allows, freeing its buffer. `trace` lists what is left acquired or was
   * released, and every success is a `ReadOutcome`.
   */
  ghost predicate OpenedFileOutcome(path: string, oracle: FileOracle, build: Build, reportProgress: bool,
                                    maxLength: Option<Int>, options: set<ReadingOption>,
                                    r: Result<ReadBytesResult, CocoaError>, trace: seq<Event>)
  {
    var size := FileSizeToRead(path, oracle.fstatErrno, oracle.fileType, |oracle.contents|, maxLength);
    var mapped := MapsFile(options, build, oracle);
    && (size.Failure? ==> r == Failure(size.error) && trace == [])
    && (size.Success? && size.value == 0 ==> r == Success(ReadBytesResult(None, 0, None)) && trace == [])
    && (size.Success? && size.value > 0 && mapped && oracle.mmapErrno.Some? ==>
          r == Failure(FileReadPosix(path, oracle.mmapErrno.value)) && trace == [])
    && (size.Success? && size.value > 0 && mapped && oracle.mmapErrno.None? ==>
          r == Success(ReadBytesResult(Some(oracle.contents[..size.value]), size.value, Some(Unmap))) &&
          trace == [Mapped])
    && (size.Success? && size.value > 0 && !mapped && oracle.mallocFails ==>
          r == Failure(FileReadPosix(path, ENOMEM)) && trace == [])
    && (size.Success? && size.value > 0 && !mapped && !oracle.mallocFails ==>
          HeapOutcome(path, oracle, reportProgress, size.value, r, trace))
    && (r.Success? ==> ReadOutcome(path, oracle, build, reportProgress, maxLength, options, r.value))
  }

  /**
   * An opened regular file is read successfully whenever nothing can fail:
   * `mmap` and `malloc` succeed, no cancellation check says yes, and every
   * failing `read` is interrupted (and retried).
   */
  lemma OpenedFileReadSucceeds(path: string, oracle: FileOracle, build: Build, reportProgress: bool,
                               maxLength: Option<Int>, options: set<ReadingOption>,
                               r: Result<ReadBytesResult, CocoaError>, trace: seq<Event>)
    requires OpenedFileOutcome(path, oracle, build, reportProgress, maxLength, options, r, trace)
    requires FileSizeToRead(path, oracle.fstatErrno, oracle.fileType, |oracle.contents|, maxLength).Success?
    requires oracle.mmapErrno.None? && !oracle.mallocFails
    requires NeverCancelled(LocalProgress(reportProgress, oracle))
    requires forall e :: Fails(e) in oracle.readAnswers ==> e == EINTR
    ensures r.Success?
  {
  }

  /**
   * When in addition every `read` delivers all it is asked for and
   * `st_blksize` is positive, the result holds exactly the first `fileSize`
   * bytes of the file, mapped or on the heap.
   */
  lemma OpenedFileReadsItsBytes(path: string, oracle: FileOracle, build: Build, reportProgress: bool,
                                maxLength: Option<Int>, options: set<ReadingOption>,
                                r: Result<ReadBytesResult, CocoaError>, trace: seq<Event>)
    requires OpenedFileOutcome(path, oracle, build, reportProgress, maxLength, options, r, trace)
    requires FileSizeToRead(path, oracle.fstatErrno, oracle.fileType, |oracle.contents|, maxLength).Success?
    requires oracle.mmapErrno.None? && !oracle.mallocFails
    requires NeverCancelled(LocalProgress(reportProgress, oracle))
    requires oracle.readAnswers == [] && oracle.blockSize > 0
    ensures var size := FileSizeToRead(path, oracle.fstatErrno, oracle.fileType, |oracle.contents|, maxLength);
            && r.Success? && r.value.length == size.value
            && (size.value > 0 ==> r.value.bytes == Some(oracle.contents[..size.value]))
  {
    OpenedFileReadSucceeds(path, oracle, build, reportProgress, maxLength, options, r, trace);
    var size := FileSizeToRead(path, oracle.fstatErrno, oracle.fileType, |oracle.contents|, maxLength);
    if size.value > 0 && !MapsFile(options, build, oracle) {
      var bytes := r.value.bytes.value;
      assert bytes[..r.value.length] == bytes;
    }
  }

  /** The resources a successful read leaves behind: none, the mapping, or the heap buffer. */
  function ResultResources(result: ReadBytesResult): seq<Event> {
    match result.deallocator
    case None => []
    case Some(Unmap) => [Mapped]
    case Some(Free) => [Allocated]
  }

  /**
   * The heap branch of `readBytesFromFile`: `malloc` a buffer of `fileSize`
   * bytes, fill it with `readBytesFromFileDescriptor`, and `free` it if that
   * throws. The ghost `trace` lists what was acquired and released.
   */
  method ReadIntoHeapBuffer(path: string, oracle: FileOracle, reportProgress: bool, fileSize: Int)
    returns (r: Result<ReadBytesResult, CocoaError>, ghost trace: seq<Event>)
    requires 0 < fileSize <= |oracle.contents|
    ensures oracle.mallocFails ==> r == Failure(FileReadPosix(path, ENOMEM)) && trace == []
    ensures !oracle.mallocFails ==> HeapOutcome(path, oracle, reportProgress, fileSize, r, trace)
    ensures r.Success? ==>
              && r.value.deallocator == Some(Free) && r.value.bytes.Some?
              && |r.value.bytes.value| == fileSize && 0 <= r.value.length <= fileSize
              && r.value.bytes.value[..r.value.length] == oracle.contents[..r.value.length]
    ensures (r.Success? && oracle.readAnswers == [] && oracle.blockSize > 0 &&
             NeverCancelled(LocalProgress(reportProgress, oracle))) ==> r.value.length == fileSize
    ensures r.Success? && oracle.blockSize == 0 ==> r.value.length == 0
  {
    trace := [];
    if oracle.mallocFails {
      return Failure(FileReadPosix(path, ENOMEM)), trace;
    }
    var buffer := new byte[fileSize];
    trace := trace + [Allocated];
    var length, after;
    ghost var calls;
    var checks;
    length, after, calls, checks :=
      ReadBytesFromFileDescriptor(OpenFile(oracle.contents, 0, oracle.readAnswers), path, buffer, fileSize,
                                  oracle.blockSize, LocalProgress(reportProgress, oracle));
    HeapReadReturns(path, oracle, reportProgress, fileSize, length, after, calls, checks);
    if length.Failure? {
      trace := trace + [Freed];
      return Failure(length.error), trace;
    }
    r := Success(ReadBytesResult(Some(buffer[..]), length.value, Some(Free)));
  }

  /**
   * The part of `readBytesFromFile` that runs with the descriptor open (and
   * under `defer { close(fd) }`): the guards after `fstat`, the choice of
   * strategy, and the extended attributes.
   */
  method ReadOpenedFile(path: string, oracle: FileOracle, build: Build, reportProgress: bool,
                        maxLength: Option<Int>, options: set<ReadingOption>,
                        attributesToRead: seq<string>, attributes: map<string, seq<byte>>)
    returns (r: Result<ReadBytesResult, CocoaError>, attributes': map<string, seq<byte>>, ghost trace: seq<Event>)
    ensures OpenedFileOutcome(path, oracle, build, reportProgress, maxLength, options, r, trace)
    ensures r.Success? ==> trace == ResultResources(r.value)
    ensures r.Failure? ==> trace == [] || trace == [Allocated, Freed]
    ensures OpenCalled !in trace && Closed !in trace
    ensures Allocated in trace ==> (Freed in trace <==> r.Failure?)
    ensures Freed in trace ==> Allocated in trace
    ensures Mapped in trace <==> r.Success? && r.value.deallocator == Some(Unmap)
    ensures Allocated in trace <==> Freed in trace || (r.Success? && r.value.deallocator == Some(Free))
    ensures r.Failure? ==> r.error.FileReadPosix? || r.error == UserCancelled
    ensures r.Success? && attributesToRead != [] ==>
              attributes' == RecoveredAttributes(build, oracle.xattrs, attributesToRead)
    ensures r.Failure? || attributesToRead == [] ==> attributes' == attributes
  {
    attributes' := attributes;
    trace := [];
    var size := FileSizeToRead(path, oracle.fstatErrno, oracle.fileType, |oracle.contents|, maxLength);
    if size.Failure? {
      return Failure(size.error), attributes', trace;
    }
    var fileSize := size.value;
    var shouldMap := MapsFile(options, build, oracle);
    var result: ReadBytesResult;
    if fileSize == 0 {
      result := ReadBytesResult(None, 0, None);
    } else if shouldMap {
      if oracle.mmapErrno.Some? {
        return Failure(FileReadPosix(path, oracle.mmapErrno.value)), attributes', trace;
      }
      trace := trace + [Mapped];
      result := ReadBytesResult(Some(oracle.contents[..fileSize]), fileSize, Some(Unmap));
    } else {
      var heap;
      heap, trace := ReadIntoHeapBuffer(path, oracle, reportProgress, fileSize);
      if heap.Failure? {
        return Failure(heap.error), attributes', trace;
      }
      result := heap.value;
    }
    if attributesToRead != [] {
      attributes' := ReadExtendedAttributesFromFileDescriptor(build, oracle.xattrs, attributesToRead);
    }
    r := Success(result);
  }

  /**
   * `readBytesFromFile`: open the file, check it, and produce its bytes as
   * nothing (size 0), a private read-only mapping, or a heap buffer filled by
   * the read loop; then, when names are given, read the extended attributes.
   * The ghost `trace` records resources acquired and released.
   */
  method ReadBytesFromFile(path: string, oracle: FileOracle, build: Build, reportProgress: bool,
                           maxLength: Option<Int>, options: set<ReadingOption>,
                           attributesToRead: seq<string>, attributes: map<string, seq<byte>>)
    returns (r: Result<ReadBytesResult, CocoaError>, attributes': map<string, seq<byte>>, ghost trace: seq<Event>)
    // an unusable path is refused before anything is opened
    ensures path == [] || oracle.fileSystemRepresentation.None? <==> r == Failure(FileReadInvalidFileName)
    ensures path == [] || oracle.fileSystemRepresentation.None? ==> trace == []
    ensures path != [] && oracle.fileSystemRepresentation.Some? ==> trace != [] && trace[0] == OpenCalled
    ensures path != [] && oracle.fileSystemRepresentation.Some? && oracle.openErrno.Some? ==>
              r == Failure(FileReadPosix(path, oracle.openErrno.value)) && trace == [OpenCalled]
    // an opened descriptor is closed on every path, once, last
    ensures path != [] && oracle.fileSystemRepresentation.Some? && oracle.openErrno.None? ==>
              |trace| >= 2 && trace[|trace| - 1] == Closed && Closed !in trace[..|trace| - 1]
    // the guards
    ensures var size := FileSizeToRead(path, oracle.fstatErrno, oracle.fileType, |oracle.contents|, maxLength);
            path != [] && oracle.fileSystemRepresentation.Some? && oracle.openErrno.None? && size.Failure? ==>
              r == Failure(size.error) && trace == [OpenCalled, Closed]
    // once opened, each branch's outcome, between the open and the close
    ensures path != [] && oracle.fileSystemRepresentation.Some? && oracle.openErrno.None? ==>
              OpenedFileOutcome(path, oracle, build, reportProgress, maxLength, options, r, trace[1..|trace| - 1])
    // the three outcomes
    ensures r.Success? ==> ReadOutcome(path, oracle, build, reportProgress, maxLength, options, r.value)
    // a heap buffer is freed exactly when the read fails; a mapping is made only for a result
    ensures Allocated in trace ==> (Freed in trace <==> r.Failure?)
    ensures Freed in trace ==> Allocated in trace
    ensures Mapped in trace <==> r.Success? && r.value.deallocator == Some(Unmap)
    ensures Allocated in trace <==> Freed in trace || (r.Success? && r.value.deallocator == Some(Free))
    // attributes are replaced only by a successful read that asked for some
    ensures r.Success? && attributesToRead != [] ==>
              attributes' == RecoveredAttributes(build, oracle.xattrs, attributesToRead)
    ensures r.Failure? || attributesToRead == [] ==> attributes' == attributes
  {
    attributes' := attributes;
    trace := [];
    if path == [] {
      // Not "file not found", for compatibility.
      return Failure(FileReadInvalidFileName), attributes', trace;
    }
    if oracle.fileSystemRepresentation.None? {
      return Failure(FileReadInvalidFileName), attributes', trace;
    }
    trace := [OpenCalled];
    if oracle.openErrno.Some? {
      return Failure(FileReadPosix(path, oracle.openErrno.value)), attributes', trace;
    }
    // Everything from here on runs with `defer { close(fd) }`.
    ghost var inner;
    r, attributes', inner := ReadOpenedFile(path, oracle, build, reportProgress, maxLength, options,
                                            attributesToRead, attributes);
    trace := [OpenCalled] + inner + [Closed];
    OpenedTrace(inner, trace);
  }

  /** The trace of an opened file: the open, what happened while it was open, and the close. */
  lemma OpenedTrace(inner: seq<Event>, trace: seq<Event>)
    requires trace == [OpenCalled] + inner + [Closed]
    requires OpenCalled !in inner && Closed !in inner
    ensures trace[1..|trace| - 1] == inner
    ensures |trace| >= 2 && trace[0] == OpenCalled && trace[|trace| - 1] == Closed && Closed !in trace[..|trace| - 1]
    ensures forall e :: e != OpenCalled && e != Closed ==> (e in trace <==> e in inner)
  {
    assert trace[..|trace| - 1] == [OpenCalled] + inner;
  }

  // ---------------------------------------------------------------------------
  // readDataFromFile
  // ---------------------------------------------------------------------------

  /** `Data`: its bytes, and the deallocator of the region it adopted (None when it adopted none). */
  datatype Data = Data(bytes: seq<byte>, deallocator: Option<Deallocator>)

  /** `Data()`. */
  const EmptyData: Data := Data([], None)

  /** What a `readBytesFromFile` result can look like: the force unwraps of `readDataFromFile` rely on it. */
  predicate WellFormedResult(result: ReadBytesResult) {
    && 0 <= result.length
    && (result.length != 0 ==> result.bytes.Some? && result.deallocator.Some?)
    && (result.bytes.Some? ==> result.length <= |result.bytes.value|)
    && (result.deallocator.Some? <==> result.bytes.Some?)
  }

  /**
   * The region a result owns is accounted for: it has no region, or the
   * `Data` adopted it with the same deallocator, or it was released.
   */
  predicate RegionAccountedFor(result: ReadBytesResult, d: Data, released: bool) {
    result.deallocator.None? || d.deallocator == result.deallocator || released
  }

  /** `readDataFromFile`'s packaging as written: a result of length 0 becomes `Data()`. */
  function DataFromReadBytesResult(result: ReadBytesResult): (d: Data)
    requires WellFormedResult(result)
    ensures |d.bytes| == result.length
    ensures result.length != 0 ==> d.bytes == result.bytes.value[..result.length] && d.deallocator == result.deallocator
    ensures result.length == 0 ==> d == EmptyData
  {
    if result.length == 0 then EmptyData
    else Data(result.bytes.value[..result.length], result.deallocator)
  }

  /** As written, an empty heap result loses its buffer: `Data()` does not adopt it and nothing frees it. */
  lemma EmptyHeapResultLeaks()
    ensures var result := ReadBytesResult(Some([0 as byte]), 0, Some(Free));
            WellFormedResult(result) && !RegionAccountedFor(result, DataFromReadBytesResult(result), false)
  {
  }

  /**
   * The packaging `readDataFromFile` evidently intends: the same `Data`, and
   * an empty result's region, if any, released (true in the second component).
   */
  function PackageReadBytesResult(result: ReadBytesResult): (p: (Data, bool))
    requires WellFormedResult(result)
    ensures RegionAccountedFor(result, p.0, p.1)
    ensures |p.0.bytes| == result.length
    ensures result.length != 0 ==> p.0.bytes == result.bytes.value[..result.length] && !p.1
    ensures p.1 ==> result.length == 0 && result.deallocator.Some?
  {
    if result.length == 0 then (EmptyData, result.deallocator.Some?)
    else (Data(result.bytes.value[..result.length], result.deallocator), false)
  }

  /** Every result `readBytesFromFile` returns can be packaged: the force unwraps never fail. */
  lemma ReadResultsAreWellFormed(path: string, oracle: FileOracle, build: Build, reportProgress: bool,
                                 maxLength: Option<Int>, options: set<ReadingOption>,
                                 result: ReadBytesResult)
    requires ReadOutcome(path, oracle, build, reportProgress, maxLength, options, result)
    ensures WellFormedResult(result)
  {
  }

  /** A regular, unmapped, non-empty file on a volume reporting `st_blksize` 0 gives an empty heap result. */
  lemma ZeroBlockSizeGivesEmptyHeapResult(path: string, oracle: FileOracle, build: Build,
                                          reportProgress: bool, maxLength: Option<Int>,
                                          options: set<ReadingOption>, result: ReadBytesResult)
    requires ReadOutcome(path, oracle, build, reportProgress, maxLength, options, result)
    requires oracle.blockSize == 0 && |oracle.contents| > 0 && maxLength.None?
    requires !MapsFile(options, build, oracle)
    ensures result.deallocator == Some(Free) && result.length == 0
    ensures !RegionAccountedFor(result, DataFromReadBytesResult(result), false)
  {
  }

  /**
   * `readDataFromFile`: read the file with `readBytesFromFile` and wrap the
   * bytes in a `Data` that adopts them, or `Data()` when there are none.
   */
  method ReadDataFromFile(path: string, oracle: FileOracle, build: Build, reportProgress: bool,
                          maxLength: Option<Int>, options: set<ReadingOption>,
                          attributesToRead: seq<string>, attributes: map<string, seq<byte>>)
    returns (r: Result<Data, CocoaError>, attributes': map<string, seq<byte>>, ghost trace: seq<Event>,
             ghost result: Result<ReadBytesResult, CocoaError>)
    // `result` is what `readBytesFromFile` returned: its error is rethrown, its bytes packaged
    ensures r.Failure? <==> result.Failure?
    ensures r.Failure? ==> r.error == result.error
    ensures r.Success? ==> WellFormedResult(result.value) && r.value == DataFromReadBytesResult(result.value)
    ensures path == [] || oracle.fileSystemRepresentation.None? <==> r == Failure(FileReadInvalidFileName)
    ensures path == [] || oracle.fileSystemRepresentation.None? ==> trace == []
    ensures path != [] && oracle.fileSystemRepresentation.Some? && oracle.openErrno.Some? ==>
              r == Failure(FileReadPosix(path, oracle.openErrno.value))
    ensures path != [] && oracle.fileSystemRepresentation.Some? && oracle.openErrno.None? ==>
              |trace| >= 2 &&
              OpenedFileOutcome(path, oracle, build, reportProgress, maxLength, options, result, trace[1..|trace| - 1])
    ensures r.Success? ==>
              var size := FileSizeToRead(path, oracle.fstatErrno, oracle.fileType, |oracle.contents|, maxLength);
              size.Success? && |r.value.bytes| <= size.value && r.value.bytes == oracle.contents[..|r.value.bytes|]
    ensures r.Success? ==> (r.value.deallocator.Some? <==> |r.value.bytes| != 0)
    ensures r.Success? && r.value.deallocator == Some(Unmap) ==> Mapped in trace && Freed !in trace
    // the as-written packaging: an empty heap result is neither adopted nor freed
    ensures r.Success? && r.value == EmptyData && Allocated in trace ==> Freed !in trace
    ensures r.Failure? ==> (Allocated in trace <==> Freed in trace)
    // the attribute map `readBytesFromFile` updates in place is passed through
    ensures r.Success? && attributesToRead != [] ==>
              attributes' == RecoveredAttributes(build, oracle.xattrs, attributesToRead)
    ensures r.Failure? || attributesToRead == [] ==> attributes' == attributes
  {
    var read;
    read, attributes', trace := ReadBytesFromFile(path, oracle, build, reportProgress, maxLength, options,
                                                 attributesToRead, attributes);
    result := read;
    if read.Failure? {
      return Failure(read.error), attributes', trace, result;
    }
    ReadResultsAreWellFormed(path, oracle, build, reportProgress, maxLength, options, read.value);
    r := Success(DataFromReadBytesResult(read.value));
  }
}
