/** File::ReadAhead: a queue of read requests in flight, and the synchronous loop it stands for. */
module PipelinedRead {
  import opened Basics

  const DEFAULT_CHUNK: nat := 256 * 1024
  const DEFAULT_DEPTH: nat := 16

  /** One submitted read: the offset is fixed when the request is begun. */
  datatype Aio = Aio(id: nat, offset: nat, len: nat)

  /** What the server returns for one read. A server that answers in full or up to the end
      of the file has cap >= len; one that trims long requests returns at most cap bytes. */
  function Served(content: seq<Byte>, offset: nat, len: nat, cap: nat): seq<Byte> {
    Slice(content, offset, Min(len, cap))
  }

  /** The answers to k requests of length step at start, start + step, ..., put end to end. */
  ghost function Joined(content: seq<Byte>, start: nat, k: nat, step: nat, cap: nat): seq<Byte> {
    if k == 0 then []
    else Joined(content, start, k - 1, step, cap) + Served(content, start + (k - 1) * step, step, cap)
  }

  /** No request is trimmed: its length is within the server's ceiling, or all that is left is. */
  predicate Untrimmed(size: nat, start: nat, step: nat, cap: nat) {
    step <= cap || size <= start + cap
  }

  /** An answer that is not trimmed is the next step bytes of the file. */
  lemma UntrimmedStep(content: seq<Byte>, start: nat, before: nat, step: nat, cap: nat)
    requires Untrimmed(|content|, start, step, cap)
    ensures Slice(content, start, before) + Served(content, start + before, step, cap) == Slice(content, start, before + step)
  {
    assert Served(content, start + before, step, cap) == Slice(content, start + before, step);
    SliceAppend(content, start, before, step);
  }

  lemma OneMoreStep(k: nat, step: nat)
    ensures (k + 1) * step == k * step + step
  {
  }

  lemma {:induction false} JoinedIsTheFile(content: seq<Byte>, start: nat, k: nat, step: nat, cap: nat)
    requires Untrimmed(|content|, start, step, cap)
    ensures Joined(content, start, k, step, cap) == Slice(content, start, k * step)
  {
    if k > 0 {
      JoinedIsTheFile(content, start, k - 1, step, cap);
      UntrimmedStep(content, start, (k - 1) * step, step, cap);
      OneMoreStep(k - 1, step);
    } else {
      assert Slice(content, start, 0) == [];
    }
  }

  lemma {:induction false} JoinedSkipsBytes(content: seq<Byte>, start: nat, k: nat, step: nat, cap: nat)
    requires !Untrimmed(|content|, start, step, cap) && k >= 1
    ensures |Joined(content, start, k, step, cap)| < |Slice(content, start, k * step)|
  {
    var before := (k - 1) * step;
    OneMoreStep(k - 1, step);
    if k == 1 {
      assert Joined(content, start, 0, step, cap) == [];
    } else {
      JoinedSkipsBytes(content, start, k - 1, step, cap);
      assert |Slice(content, start + before, step)| + |Slice(content, start, before)|
          == |Slice(content, start, before + step)| by { SliceAppend(content, start, before, step); }
    }
  }

  /** Once the requests have run past the end, the answers are the rest of the file
      exactly when no request was trimmed. */
  lemma PipelineCompleteIff(content: seq<Byte>, start: nat, k: nat, step: nat, cap: nat)
    requires start + k * step >= |content|
    ensures Joined(content, start, k, step, cap) == Suffix(content, start)
       <==> Untrimmed(|content|, start, step, cap)
  {
    assert Slice(content, start, k * step) == Suffix(content, start);
    if Untrimmed(|content|, start, step, cap) {
      JoinedIsTheFile(content, start, k, step, cap);
    } else if k >= 1 {
      JoinedSkipsBytes(content, start, k, step, cap);
    }
  }

  /** The default pipeline, whose requests libssh shortens to maxRead, against a server that trims at
      64 KiB: it is complete exactly when libssh's limit is within that, or the file is. */
  lemma DefaultChunkAgainstTrimmingServer(content: seq<Byte>, k: nat, maxRead: nat)
    requires k * Min(262144, maxRead) >= |content|
    ensures Joined(content, 0, k, Min(262144, maxRead), 65536) == content
       <==> maxRead <= 65536 || |content| <= 65536
  {
    PipelineCompleteIff(content, 0, k, Min(262144, maxRead), 65536);
    assert Suffix(content, 0) == content;
  }

  /** One more answer, and where the next request starts. */
  lemma JoinedStep(content: seq<Byte>, start: nat, k: nat, step: nat, cap: nat)
    ensures start + (k + 1) * step == start + k * step + step
    ensures Joined(content, start, k + 1, step, cap)
         == Joined(content, start, k, step, cap) + Served(content, start + k * step, step, cap)
  {
    OneMoreStep(k, step);
  }

  /** What has been delivered when taken requests are finished and the next answer is due at front. */
  ghost predicate Progress(content: seq<Byte>, start: nat, step: nat, cap: nat, taken: nat, front: nat,
                           delivered: seq<Byte>, gap: bool) {
    front == start + taken * step && (!gap ==> delivered == Joined(content, start, taken, step, cap))
  }

  lemma ProgressStep(content: seq<Byte>, start: nat, step: nat, cap: nat, taken: nat, front: nat,
                     delivered: seq<Byte>, gap: bool)
    requires Progress(content, start, step, cap, taken, front, delivered, gap)
    ensures Progress(content, start, step, cap, taken + 1, front + step, delivered + Served(content, front, step, cap), gap)
    ensures Progress(content, start, step, cap, taken + 1, front + step, delivered, true)
  {
    JoinedStep(content, start, taken, step, cap);
  }

  /** Only the end of the file makes an empty answer. */
  lemma EmptyAnswer(content: seq<Byte>, offset: nat, len: nat, cap: nat)
    requires len >= 1 && cap >= 1 && Served(content, offset, len, cap) == []
    ensures offset >= |content|
  {
  }

  /** An open remote file as libssh shows it, with a ledger of requests begun and not yet finished. */
  class RemoteFile {
    const content: seq<Byte>
    const maxRead: nat   // libssh shortens a request to this
    const cap: nat       // the server trims an answer to this
    const mayFail: bool  // whether calls ever fail
    var isOpen: bool
    var offset: nat
    var nextId: nat
    ghost var outstanding: set<nat>
    ghost var failures: nat  // calls that have failed

    ghost predicate Valid()
      reads this
    {
      maxRead >= 1 && cap >= 1 && (failures > 0 ==> mayFail) && forall id :: id in outstanding ==> id < nextId
    }

    constructor (content: seq<Byte>, offset: nat, maxRead: nat, cap: nat, mayFail: bool)
      requires maxRead >= 1 && cap >= 1
      ensures this.mayFail == mayFail
      ensures Valid() && isOpen && outstanding == {}
      ensures this.content == content && this.offset == offset && this.maxRead == maxRead && this.cap == cap
    {
      this.content, this.maxRead, this.cap, this.mayFail := content, maxRead, cap, mayFail;
      this.offset, isOpen, nextId, outstanding, failures := offset, true, 0, {}, 0;
    }

    /** sftp_aio_begin_read: captures the current offset and moves it past the request, or fails. */
    method BeginRead(len: nat) returns (aio: Option<Aio>)
      requires Valid()
      modifies this`offset, this`nextId, this`outstanding, this`failures
      ensures Valid() && failures == old(failures) + (if aio.None? then 1 else 0)
      ensures aio.None? ==> offset == old(offset) && nextId == old(nextId) && outstanding == old(outstanding)
      ensures aio.Some? ==>
        && aio.value == Aio(old(nextId), old(offset), Min(len, maxRead))
        && offset == old(offset) + Min(len, maxRead)
        && outstanding == old(outstanding) + {aio.value.id} && aio.value.id !in old(outstanding)
        && nextId == old(nextId) + 1
    {
      var refused: bool := *;
      if refused && mayFail {
        failures := failures + 1;
        return None;
      }
      aio := Some(Aio(nextId, offset, Min(len, maxRead)));
      offset := offset + Min(len, maxRead);
      outstanding := outstanding + {nextId};
      nextId := nextId + 1;
    }

    /** sftp_aio_wait_read: finishes the request, with its bytes or with an error. */
    method WaitRead(aio: Aio) returns (r: Result<seq<Byte>>)
      requires Valid() && aio.id in outstanding
      modifies this`outstanding, this`failures
      ensures Valid() && outstanding == old(outstanding) - {aio.id}
      ensures failures == old(failures) + (if r.Err? then 1 else 0)
      ensures r.Ok? ==> r.value == Served(content, aio.offset, aio.len, cap)
    {
      outstanding := outstanding - {aio.id};
      var code: int := *;
      r := if mayFail && code >= 0 then Err(code) else Ok(Served(content, aio.offset, aio.len, cap));
      failures := failures + if r.Err? then 1 else 0;
    }

    /** sftp_aio_free: drops the request without its answer. */
    method FreeAio(aio: Aio)
      requires Valid() && aio.id in outstanding
      modifies this`outstanding
      ensures Valid() && outstanding == old(outstanding) - {aio.id}
    {
      outstanding := outstanding - {aio.id};
    }

    /** sftp_read: any non-empty part of what is left, nothing at the end, or an error. */
    method Read(len: nat) returns (r: Result<seq<Byte>>)
      requires Valid()
      modifies this`offset, this`failures
      ensures Valid() && failures == old(failures) + (if r.Err? then 1 else 0)
      ensures r.Ok? ==>
        && |r.value| <= len && r.value == Slice(content, old(offset), |r.value|)
        && (r.value == [] <==> len == 0 || old(offset) >= |content|)
        && offset == old(offset) + |r.value|
      ensures r.Err? ==> offset == old(offset)
    {
      var code: int := *;
      if mayFail && code >= 0 {
        failures := failures + 1;
        return Err(code);
      }
      var available := |Slice(content, offset, len)|;
      var n: int := *;
      n := if 1 <= n <= available then n else available;
      r := Ok(Slice(content, offset, n));
      offset := offset + n;
    }
  }

  ghost function Ids(q: seq<Aio>): set<nat> {
    set i | 0 <= i < |q| :: q[i].id
  }

  ghost predicate Distinct(q: seq<Aio>) {
    forall i, j :: 0 <= i < j < |q| ==> q[i].id != q[j].id
  }

  lemma PopFront(q: seq<Aio>)
    requires q != [] && Distinct(q)
    ensures Distinct(q[1..]) && Ids(q[1..]) == Ids(q) - {q[0].id}
  {
    forall i | 1 <= i < |q| ensures q[i].id in Ids(q[1..]) {
      assert q[1..][i - 1] == q[i];
    }
  }

  /** The queue holds consecutive requests of one length, the first of them at offset at. */
  ghost predicate Scheduled(q: seq<Aio>, at: nat, step: nat) {
    q == [] || (q[0].offset == at && q[0].len == step && Scheduled(q[1..], at + step, step))
  }

  /** The offset after the last request of the queue. */
  ghost function Past(q: seq<Aio>, at: nat, step: nat): nat {
    if q == [] then at else Past(q[1..], at + step, step)
  }

  lemma {:induction false} ScheduledPush(q: seq<Aio>, at: nat, step: nat, r: Aio)
    requires Scheduled(q, at, step) && r.offset == Past(q, at, step) && r.len == step
    ensures Scheduled(q + [r], at, step) && Past(q + [r], at, step) == Past(q, at, step) + step
  {
    if q == [] {
      assert q + [r] == [r] && [r][1..] == [];
    } else {
      assert (q + [r])[1..] == q[1..] + [r];
      ScheduledPush(q[1..], at + step, step, r);
    }
  }

  class ReadAhead {
    const file: RemoteFile
    const chunk: nat
    const depth: nat
    var inflight: seq<Aio>
    var reachedEof: bool
    ghost const start: nat
    ghost var taken: nat            // requests finished so far, in file order
    ghost var front: nat            // offset of the oldest request in flight
    ghost var delivered: seq<Byte>  // everything TryNext has returned
    ghost var gap: bool             // a wait failed, and its bytes are lost

    ghost function Step(): nat {
      Min(chunk, file.maxRead)
    }

    ghost predicate Valid()
      reads this, file
    {
      && file.Valid() && chunk >= 1 && depth >= 1
      && |inflight| <= depth
      && file.outstanding == Ids(inflight)
      && Distinct(inflight)
      && Scheduled(inflight, front, Step())
      && (!reachedEof ==> file.offset == Past(inflight, front, Step()))
      && (reachedEof ==> inflight == [] && front >= |file.content|)
      && (gap ==> file.failures > 0)
      && Progress(file.content, start, Step(), file.cap, taken, front, delivered, gap)
    }

    constructor (file: RemoteFile, chunk: nat, depth: nat)
      requires file.Valid() && file.outstanding == {}
      ensures Valid() && this.file == file && start == file.offset
      ensures inflight == [] && !reachedEof && delivered == [] && !gap
      ensures this.chunk == (if chunk != 0 then chunk else 262144)
      ensures this.depth == (if depth != 0 then depth else 16)
    {
      this.file := file;
      this.chunk := if chunk != 0 then chunk else DEFAULT_CHUNK;
      this.depth := if depth != 0 then depth else DEFAULT_DEPTH;
      inflight, reachedEof := [], false;
      start, taken, front, delivered, gap := file.offset, 0, file.offset, [], false;
    }

    method SubmitOne() returns (ok: bool)
      requires Valid() && !reachedEof && |inflight| < depth
      modifies this`inflight, file`offset, file`nextId, file`outstanding, file`failures
      ensures Valid() && file.failures == old(file.failures) + (if ok then 0 else 1)
      ensures ok ==> |inflight| == |old(inflight)| + 1 && old(inflight) <= inflight
      ensures !ok ==> inflight == old(inflight)
    {
      var aio := file.BeginRead(chunk);
      if aio.None? {
        return false;
      }
      ghost var before := inflight;
      ScheduledPush(inflight, front, Step(), aio.value);
      inflight := inflight + [aio.value];
      assert file.outstanding == Ids(inflight) by {
        assert forall i :: 0 <= i < |before| ==> inflight[i] == before[i];
        assert inflight[|before|] == aio.value;
      }
      ok := true;
    }

    /** Keeps the queue full until the end of the file has been seen. */
    method Fill() returns (ok: bool)
      requires Valid()
      modifies this`inflight, file`offset, file`nextId, file`outstanding, file`failures
      ensures Valid() && file.failures == old(file.failures) + (if ok then 0 else 1)
      ensures ok ==> reachedEof || |inflight| == depth
      ensures reachedEof ==> ok
      ensures old(inflight) <= inflight
    {
      while !reachedEof && |inflight| < depth
        invariant Valid() && old(inflight) <= inflight && file.failures == old(file.failures)
        decreases depth - |inflight|
      {
        ok := SubmitOne();
        if !ok {
          return;
        }
      }
      ok := true;
    }

    /** Finishes the oldest request. A failed wait loses its bytes; an empty answer ends the file. */
    method WaitFront() returns (r: Result<seq<Byte>>)
      requires Valid() && inflight != [] && !reachedEof
      modifies this, file`outstanding, file`failures
      ensures Valid() && file.failures == old(file.failures) + (if r.Err? then 1 else 0)
      ensures r.Ok? ==> delivered == old(delivered) + r.value && gap == old(gap)
      ensures r.Ok? && r.value != [] ==> !reachedEof && inflight == old(inflight)[1..]
      ensures r.Ok? && r.value == [] ==> reachedEof
      ensures r.Err? ==> delivered == old(delivered) && gap && inflight == old(inflight)[1..]
    {
      var aio := inflight[0];
      PopFront(inflight);
      inflight := inflight[1..];
      r := file.WaitRead(aio);
      if r.Ok? && r.value == [] {
        EmptyAnswer(file.content, aio.offset, aio.len, file.cap);
        reachedEof := true;
        FreeAll();
        return;
      }
      ProgressStep(file.content, start, Step(), file.cap, taken, front, delivered, gap);
      taken, front := taken + 1, front + Step();
      if r.Err? {
        gap := true;
      } else {
        delivered := delivered + r.value;
      }
    }

    /** The next answer in file order. While nothing has been lost to a failed wait, an empty
        answer means the caller has seen the rest of the file, provided no request was trimmed;
        if one was, bytes are missing. */
    method TryNext() returns (r: Result<seq<Byte>>)
      requires Valid()
      modifies this, file`offset, file`nextId, file`outstanding, file`failures
      ensures Valid()
      ensures r.Err? <==> !file.isOpen || file.failures > old(file.failures)
      ensures !file.isOpen ==> r.Err? && inflight == old(inflight)
      ensures r.Ok? ==> delivered == old(delivered) + r.value && gap == old(gap)
      ensures r.Err? ==> delivered == old(delivered)
      ensures r.Ok? && r.value != [] ==> !reachedEof && |inflight| == depth - 1
      ensures r.Ok? && r.value == [] ==> reachedEof && file.outstanding == {}
      ensures file.isOpen && old(reachedEof) ==> r == Ok([]) && reachedEof
      ensures r == Ok([]) && !gap ==>
        (delivered == Suffix(file.content, start) <==> Untrimmed(|file.content|, start, Step(), file.cap))
      ensures !gap && Untrimmed(|file.content|, start, Step(), file.cap) ==>
        delivered == Slice(file.content, start, |delivered|)
    {
      if !file.isOpen {
        DeliveredSoFar();
        return Err(1);
      }
      var ok := Fill();
      if !ok {
        DeliveredSoFar();
        return Err(1);
      }
      if inflight == [] {
        DeliveredSoFar();
        return Ok([]);
      }
      r := WaitFront();
      DeliveredSoFar();
    }

    /** What Valid says about the bytes delivered, in terms of the file alone. */
    lemma DeliveredSoFar()
      requires Valid()
      ensures reachedEof && !gap ==>
        (delivered == Suffix(file.content, start) <==> Untrimmed(|file.content|, start, Step(), file.cap))
      ensures !gap && Untrimmed(|file.content|, start, Step(), file.cap) ==>
        delivered == Slice(file.content, start, |delivered|)
    {
      if !gap {
        if reachedEof {
          PipelineCompleteIff(file.content, start, taken, Step(), file.cap);
        }
        if Untrimmed(|file.content|, start, Step(), file.cap) {
          JoinedIsTheFile(file.content, start, taken, Step(), file.cap);
        }
      }
    }

    /** Frees, rather than waits for, whatever is still in flight. */
    method FreeAll()
      requires file.Valid()
      requires file.outstanding == Ids(inflight)
      requires Distinct(inflight)
      modifies this`inflight, file`outstanding
      ensures inflight == [] && file.outstanding == {} && file.Valid()
    {
      while inflight != []
        invariant file.Valid()
        invariant file.outstanding == Ids(inflight)
        invariant Distinct(inflight)
        decreases |inflight|
      {
        PopFront(inflight);
        file.FreeAio(inflight[0]);
        inflight := inflight[1..];
      }
    }

    /** ~ReadAhead: no request begun through this object is left unfinished. */
    method Destroy()
      requires Valid()
      modifies this`inflight, file`outstanding
      ensures inflight == [] && file.outstanding == {}
    {
      FreeAll();
    }
  }

  /** The branch compiled when libssh has no asynchronous reads. */
  class SyncReadAhead {
    const file: RemoteFile
    const chunk: nat
    var reachedEof: bool
    ghost const start: nat
    ghost var delivered: seq<Byte>

    ghost predicate Valid()
      reads this, file
    {
      && file.Valid() && chunk >= 1
      && delivered == Slice(file.content, start, |delivered|)
      && file.offset == start + |delivered|
      && (reachedEof ==> delivered == Suffix(file.content, start))
    }

    constructor (file: RemoteFile, chunk: nat)
      requires file.Valid()
      ensures Valid() && this.file == file && start == file.offset && !reachedEof && delivered == []
      ensures this.chunk == if chunk != 0 then chunk else 262144
    {
      this.file := file;
      this.chunk := if chunk != 0 then chunk else DEFAULT_CHUNK;
      reachedEof := false;
      start, delivered := file.offset, [];
    }

    /** Ends with the rest of the file whatever the server trims: the offset follows the answers. */
    method TryNext() returns (r: Result<seq<Byte>>)
      requires Valid()
      modifies this, file`offset, file`failures
      ensures Valid()
      ensures r.Err? <==> !file.isOpen || file.failures > old(file.failures)
      ensures r.Ok? ==> delivered == old(delivered) + r.value
      ensures r.Err? ==> delivered == old(delivered)
      ensures file.isOpen && old(reachedEof) ==> r == Ok([])
      ensures r == Ok([]) ==> reachedEof && delivered == Suffix(file.content, start)
    {
      if !file.isOpen {
        return Err(1);
      }
      if reachedEof {
        return Ok([]);
      }
      r := file.Read(chunk);
      if r.Err? {
        return;
      }
      if r.value == [] {
        reachedEof := true;
        assert Slice(file.content, start, |delivered|) == Suffix(file.content, start);
      }
      SliceAppend(file.content, start, |delivered|, |r.value|);
      delivered := delivered + r.value;
    }
  }

  /** The pipelined and the synchronous branch, each read to its end, have delivered the same bytes
      exactly when no request was trimmed. */
  lemma BranchesAgreeIff(fast: ReadAhead, slow: SyncReadAhead)
    requires fast.Valid() && slow.Valid() && fast.reachedEof && slow.reachedEof && !fast.gap
    requires fast.file.content == slow.file.content && fast.start == slow.start
    ensures fast.delivered == slow.delivered
       <==> Untrimmed(|fast.file.content|, fast.start, fast.Step(), fast.file.cap)
  {
    fast.DeliveredSoFar();
  }
}
