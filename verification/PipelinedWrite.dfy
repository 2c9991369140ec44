/** File::WriteBehind: a queue of write requests in flight over a server that applies them in any order. */
module PipelinedWrite {
  import opened Basics

  const DEFAULT_CHUNK: nat := 256 * 1024
  const DEFAULT_DEPTH: nat := 16

  datatype Request = Request(id: nat, offset: nat, data: seq<Byte>)

  /** The outcome of one finished request: None for success, otherwise the error's code. */
  type Outcome = Option<nat>

  /** An error that tests true: its code is not 0. */
  predicate Visible(o: Outcome) {
    o.Some? && o.value != 0
  }

  /** The first visible error among n outcomes from number from on. */
  function FirstVisible(fate: nat -> Outcome, from: nat, n: nat): Outcome {
    if n == 0 then None
    else
      var before := FirstVisible(fate, from, n - 1);
      if before.Some? || !Visible(fate(from + n - 1)) then before else fate(from + n - 1)
  }

  /** How many of them are failures, visible or not. */
  function Failures(fate: nat -> Outcome, from: nat, n: nat): nat {
    if n == 0 then 0 else Failures(fate, from, n - 1) + (if fate(from + n - 1).Some? then 1 else 0)
  }

  predicate AllSucceeded(fate: nat -> Outcome, from: nat, n: nat) {
    forall i: nat :: from <= i < from + n ==> fate(i).None?
  }

  lemma {:induction false} NoFailures(fate: nat -> Outcome, from: nat, n: nat)
    ensures Failures(fate, from, n) == 0 <==> AllSucceeded(fate, from, n)
  {
    if n > 0 {
      NoFailures(fate, from, n - 1);
      assert AllSucceeded(fate, from, n) ==> fate(from + n - 1).None?;
    }
  }

  /** No failed request left the session's status at 0, the one case TryFlush cannot see. */
  predicate NoSilentFailure(fate: nat -> Outcome, from: nat, n: nat) {
    forall i: nat :: from <= i < from + n ==> fate(i) != Some(0)
  }

  /** It is visible, one of them, and nothing before it is; it is missing exactly when none is visible. */
  lemma {:induction false} FirstVisibleMeaning(fate: nat -> Outcome, from: nat, n: nat)
    ensures match FirstVisible(fate, from, n)
      case None => forall i: nat :: from <= i < from + n ==> !Visible(fate(i))
      case Some(code) => exists i: nat ::
        && from <= i < from + n && fate(i) == Some(code) && code != 0
        && forall j: nat :: from <= j < i ==> !Visible(fate(j))
  {
    if n > 0 {
      FirstVisibleMeaning(fate, from, n - 1);
    }
  }

  /** With nothing visible, all succeeded if and only if no failure was silent. */
  lemma NothingVisible(fate: nat -> Outcome, from: nat, n: nat)
    requires FirstVisible(fate, from, n).None?
    ensures AllSucceeded(fate, from, n) <==> NoSilentFailure(fate, from, n)
  {
    FirstVisibleMeaning(fate, from, n);
    assert forall i: nat :: from <= i < from + n && fate(i).Some? ==> !Visible(fate(i));
  }

  /** Where nothing is visible in two stretches, nothing is in both together. */
  lemma {:induction false} NothingVisibleInBoth(fate: nat -> Outcome, from: nat, m: nat, n: nat)
    requires FirstVisible(fate, from, m).None? && FirstVisible(fate, from + m, n).None?
    ensures FirstVisible(fate, from, m + n).None?
  {
    if n > 0 {
      NothingVisibleInBoth(fate, from, m, n - 1);
    }
  }

  /** A failed request with code 0, and nothing is seen of it. */
  lemma SilentFailureExample(fate: nat -> Outcome)
    requires fate(0) == Some(0)
    ensures FirstVisible(fate, 0, 1).None? && !AllSucceeded(fate, 0, 1)
  {
    assert fate(0).Some?;
  }

  /** Request r carries the part of sent that belongs at its offset. */
  predicate Carries(r: Request, start: nat, sent: seq<Byte>) {
    && start <= r.offset && r.offset + |r.data| <= start + |sent|
    && r.data == sent[r.offset - start..r.offset - start + |r.data|]
  }

  predicate Covers(r: Request, p: nat) {
    r.offset <= p < r.offset + |r.data|
  }

  ghost predicate Settled(p: nat, unsettled: set<Request>) {
    forall r :: r in unsettled ==> !Covers(r, p)
  }

  /** content is what the server may hold when all of sent has been begun from start over a file
      that held base, and exactly the requests in unsettled have not been applied: outside the
      region nothing changed, inside it every byte no unsettled request carries has arrived. */
  ghost predicate Consistent(content: seq<Byte>, base: seq<Byte>, start: nat, sent: seq<Byte>, unsettled: set<Request>) {
    && (forall r :: r in unsettled ==> Carries(r, start, sent))
    && |base| <= |content| <= |Overlay(base, start, sent)|
    && (forall p: nat :: p < |content| && !(start <= p < start + |sent|) ==>
          content[p] == if p < |base| then base[p] else 0)
    && (forall p: nat :: start <= p < start + |sent| && Settled(p, unsettled) ==>
          p < |content| && content[p] == sent[p - start])
  }

  lemma BeginKeepsConsistent(content: seq<Byte>, base: seq<Byte>, start: nat, sent: seq<Byte>,
                             unsettled: set<Request>, r: Request)
    requires Consistent(content, base, start, sent, unsettled)
    requires r.offset == start + |sent|
    ensures Consistent(content, base, start, sent + r.data, unsettled + {r})
  {
    var sent' := sent + r.data;
    forall q | q in unsettled + {r} ensures Carries(q, start, sent') {
      if q in unsettled {
        assert Carries(q, start, sent);
      }
    }
    forall p: nat | start <= p < start + |sent'| && Settled(p, unsettled + {r})
      ensures p < |content| && content[p] == sent'[p - start]
    {
      assert !Covers(r, p);
      assert Settled(p, unsettled);
    }
  }

  /** Applying any of the unsettled requests, in whatever order the server likes. */
  lemma ApplyKeepsConsistent(content: seq<Byte>, base: seq<Byte>, start: nat, sent: seq<Byte>,
                             unsettled: set<Request>, r: Request)
    requires Consistent(content, base, start, sent, unsettled)
    requires Carries(r, start, sent)
    ensures Consistent(Overlay(content, r.offset, r.data), base, start, sent, unsettled - {r})
  {
    var content' := Overlay(content, r.offset, r.data);
    forall p: nat | start <= p < start + |sent| && Settled(p, unsettled - {r})
      ensures p < |content'| && content'[p] == sent[p - start]
    {
      if Covers(r, p) {
        assert r.data[p - r.offset] == sent[p - start];
      } else {
        assert Settled(p, unsettled);
      }
    }
  }

  lemma MoreUnsettled(content: seq<Byte>, base: seq<Byte>, start: nat, sent: seq<Byte>,
                      unsettled: set<Request>, more: set<Request>)
    requires Consistent(content, base, start, sent, unsettled) && unsettled <= more
    requires forall r :: r in more ==> Carries(r, start, sent)
    ensures Consistent(content, base, start, sent, more)
  {
    forall p: nat | Settled(p, more) ensures Settled(p, unsettled) {
    }
  }

  /** When nothing is unsettled, the order of the writes no longer shows. */
  lemma SettledIsOverlay(content: seq<Byte>, base: seq<Byte>, start: nat, sent: seq<Byte>)
    requires Consistent(content, base, start, sent, {})
    ensures content == Overlay(base, start, sent)
  {
    forall p: nat | start <= p < start + |sent| ensures p < |content| && content[p] == sent[p - start] {
      assert Settled(p, {});
    }
    if sent != [] {
      assert Settled(start + |sent| - 1, {});
    }
  }

  /** The file behind an open handle and the requests the server has accepted but not yet applied. */
  class RemoteFile {
    const mayFail: bool              // whether calls ever fail
    const fate: nat -> Outcome       // how each request will end, by its number
    var isOpen: bool
    var content: seq<Byte>
    var offset: nat
    var nextId: nat
    var pending: set<Request>        // begun, neither applied nor failed
    ghost var outstanding: set<nat>  // begun, not yet waited on
    ghost const base: seq<Byte>      // content when the writer took over
    ghost const start: nat           // offset when the writer took over
    ghost var sent: seq<Byte>        // data of all requests begun, in order
    ghost var failed: set<Request>   // refused by the server
    ghost var failures: nat          // calls that have failed

    ghost predicate Valid()
      reads this
    {
      && offset == start + |sent| && (failures > 0 ==> mayFail)
      && (!mayFail ==> forall id :: fate(id).None?)
      && Consistent(content, base, start, sent, pending + failed)
    }

    constructor (content: seq<Byte>, offset: nat, mayFail: bool, fate: nat -> Outcome)
      requires !mayFail ==> forall id :: fate(id).None?
      ensures this.mayFail == mayFail && this.fate == fate && failures == 0
      ensures Valid() && isOpen && outstanding == {} && pending == {} && failed == {}
      ensures base == content && start == offset && sent == [] && this.content == content
    {
      this.mayFail, this.fate := mayFail, fate;
      this.content, this.offset, isOpen, nextId, pending, failures := content, offset, true, 0, {}, 0;
      outstanding, base, start, sent, failed := {}, content, offset, [], {};
    }

    /** sftp_aio_begin_write: accepts a non-empty front part of data, or fails. */
    method BeginWrite(data: seq<Byte>) returns (r: Option<Request>)
      requires Valid() && data != []
      modifies this`offset, this`nextId, this`pending, this`outstanding, this`sent, this`failures
      ensures Valid() && failures == old(failures) + (if r.None? then 1 else 0)
      ensures r.None? ==>
        && sent == old(sent) && pending == old(pending) && outstanding == old(outstanding) && nextId == old(nextId)
      ensures r.Some? ==>
        && 1 <= |r.value.data| <= |data| && r.value.data == data[..|r.value.data|]
        && r.value.offset == start + |old(sent)| && sent == old(sent) + r.value.data
        && pending == old(pending) + {r.value}
        && r.value.id == old(nextId) && nextId == old(nextId) + 1
        && outstanding == old(outstanding) + {r.value.id}
    {
      var refused: bool, accepted: int := *, *;
      if refused && mayFail {
        failures := failures + 1;
        return None;
      }
      accepted := if 1 <= accepted <= |data| then accepted else |data|;
      var request := Request(nextId, offset, data[..accepted]);
      BeginKeepsConsistent(content, base, start, sent, pending + failed, request);
      assert pending + failed + {request} == (pending + {request}) + failed;
      offset, nextId := offset + accepted, nextId + 1;
      pending, outstanding, sent := pending + {request}, outstanding + {request.id}, sent + request.data;
      r := Some(request);
    }

    /** The server applies one request it holds. */
    method Apply(r: Request)
      requires Valid() && r in pending
      modifies this`content, this`pending
      ensures Valid() && pending == old(pending) - {r}
    {
      ApplyKeepsConsistent(content, base, start, sent, pending + failed, r);
      MoreUnsettled(Overlay(content, r.offset, r.data), base, start, sent,
                    pending + failed - {r}, (pending - {r}) + failed);
      content, pending := Overlay(content, r.offset, r.data), pending - {r};
    }

    /** The server applies any number of the requests it holds, in any order. */
    method Progress()
      requires Valid()
      modifies this`content, this`pending
      ensures Valid() && pending <= old(pending)
    {
      var more: bool := *;
      while more && pending != {}
        invariant Valid() && pending <= old(pending)
        decreases |pending|
      {
        var r :| r in pending;
        Apply(r);
        more := *;
      }
    }

    /** sftp_aio_wait_write: on success the request has been applied, on failure it never will be. */
    method WaitWrite(r: Request) returns (outcome: Outcome)
      requires Valid() && r.id in outstanding && Carries(r, start, sent)
      requires forall s :: s in pending && s.id == r.id ==> s == r
      modifies this`content, this`pending, this`outstanding, this`failed, this`failures
      ensures outcome == fate(r.id) && failures == old(failures) + (if outcome.Some? then 1 else 0)
      ensures Valid() && outstanding == old(outstanding) - {r.id}
      ensures pending <= old(pending) - {r}
      ensures outcome.None? ==> failed == old(failed)
      ensures outcome.Some? ==> failed == old(failed) + {r}
    {
      Progress();
      outcome := fate(r.id);
      if outcome.Some? {
        MoreUnsettled(content, base, start, sent, pending + failed, (pending - {r}) + (failed + {r}));
        pending, failed, failures := pending - {r}, failed + {r}, failures + 1;
      } else if r in pending {
        Apply(r);
      }
      outstanding := outstanding - {r.id};
    }
  }

  /** The queue holds exactly the requests not waited on, numbered from number from on in the order they were
      begun, each within what has been sent, and among them all that the server still holds. */
  ghost predicate Queued(q: seq<Request>, pending: set<Request>, outstanding: set<nat>, from: nat, next: nat,
                         start: nat, sent: seq<Byte>)
  {
    && next == from + |q|
    && (forall i :: 0 <= i < |q| ==> q[i].id == from + i && Carries(q[i], start, sent))
    && (forall id :: id in outstanding <==> from <= id < next)
    && (forall r :: r in pending ==> r in q)
  }

  lemma PopFront(q: seq<Request>, pending: set<Request>, pending': set<Request>, outstanding: set<nat>,
                 from: nat, next: nat, start: nat, sent: seq<Byte>)
    requires q != [] && Queued(q, pending, outstanding, from, next, start, sent) && pending' <= pending - {q[0]}
    ensures Queued(q[1..], pending', outstanding - {q[0].id}, from + 1, next, start, sent)
  {
    forall r | r in pending' ensures r in q[1..] {
      assert r in q && r != q[0];
    }
  }

  lemma FrontIsAlone(q: seq<Request>, pending: set<Request>, outstanding: set<nat>, from: nat, next: nat,
                     start: nat, sent: seq<Byte>)
    requires q != [] && Queued(q, pending, outstanding, from, next, start, sent)
    ensures q[0].id == from && q[0].id in outstanding && Carries(q[0], start, sent)
    ensures forall r :: r in pending && r.id == q[0].id ==> r == q[0]
  {
  }

  lemma PushBack(q: seq<Request>, pending: set<Request>, outstanding: set<nat>, r: Request, from: nat, next: nat,
                 start: nat, sent: seq<Byte>)
    requires Queued(q, pending, outstanding, from, next, start, sent)
    requires r.id == next && r.offset == start + |sent|
    ensures Queued(q + [r], pending + {r}, outstanding + {r.id}, from, next + 1, start, sent + r.data)
  {
    forall i | 0 <= i < |q| ensures Carries(q[i], start, sent + r.data) {
      assert Carries(q[i], start, sent);
    }
    assert (q + [r])[|q|] == r;
    assert Carries(r, start, sent + r.data);
  }

  /** Of data, the first k bytes have been begun after what had been sent before. */
  predicate Begun(before: seq<Byte>, data: seq<Byte>, k: nat, sent: seq<Byte>) {
    k <= |data| && sent == before + data[..k]
  }

  class WriteBehind {
    const file: RemoteFile
    const chunk: nat
    const depth: nat
    var inflight: seq<Request>
    ghost const first: nat    // the number of the first request
    ghost var waited: nat     // how many requests have been waited on, in the order they were begun
    ghost var reported: bool  // some call has returned an error

    /** Requests in flight are exactly those not waited on, each within what has been sent; those waited on,
        failed exactly if their fate has it so. */
    ghost predicate QueueValid()
      reads this, file
    {
      && file.Valid() && chunk >= 1 && depth >= 1
      && |inflight| <= depth
      && Queued(inflight, file.pending, file.outstanding, first + waited, file.nextId, file.start, file.sent)
      && (file.failed == {} <==> Failures(file.fate, first, waited) == 0)
    }

    /** Between calls, a failure with a non-zero code has been reported. */
    ghost predicate Valid()
      reads this, file
    {
      QueueValid() && (!reported ==> FirstVisible(file.fate, first, waited).None?)
    }

    constructor (file: RemoteFile, chunk: nat, depth: nat)
      requires file.Valid() && file.outstanding == {} && file.pending == {} && file.failed == {}
      ensures Valid() && this.file == file && inflight == [] && waited == 0 && !reported
      ensures this.chunk == (if chunk != 0 then chunk else 262144)
      ensures this.depth == (if depth != 0 then depth else 16)
    {
      this.file := file;
      this.chunk := if chunk != 0 then chunk else DEFAULT_CHUNK;
      this.depth := if depth != 0 then depth else DEFAULT_DEPTH;
      inflight, waited, reported, first := [], 0, false, file.nextId;
    }

    /** Waits for the oldest request; the caller decides what to do with its error. */
    method DrainOne() returns (outcome: Outcome)
      requires QueueValid() && inflight != []
      modifies this`inflight, this`waited, file`content, file`pending, file`outstanding, file`failed, file`failures
      ensures QueueValid() && file.failures == old(file.failures) + (if outcome.Some? then 1 else 0)
      ensures inflight == old(inflight)[1..] && waited == old(waited) + 1
      ensures outcome == file.fate(first + old(waited))
    {
      ghost var pending, outstanding := file.pending, file.outstanding;
      var r := inflight[0];
      FrontIsAlone(inflight, pending, outstanding, first + waited, file.nextId, file.start, file.sent);
      outcome := file.WaitWrite(r);
      PopFront(inflight, pending, file.pending, outstanding, first + waited, file.nextId, file.start, file.sent);
      inflight, waited := inflight[1..], waited + 1;
    }

    /** Drains until there is room for one more request, stopping at the first failure. */
    method MakeRoom() returns (outcome: Outcome)
      requires Valid()
      modifies this`inflight, this`waited, file`content, file`pending, file`outstanding, file`failed, file`failures
      ensures QueueValid()
      ensures outcome.None? ==> |inflight| < depth && (!reported ==> FirstVisible(file.fate, first, waited).None?)
      ensures file.failures == old(file.failures) + (if outcome.Some? then 1 else 0)
    {
      while |inflight| >= depth
        invariant Valid() && file.failures == old(file.failures)
        decreases |inflight|
      {
        outcome := DrainOne();
        if outcome.Some? {
          return;
        }
      }
      outcome := None;
    }

    /** Begins some of piece, and pushes the request; 0 if that fails. */
    method Submit(piece: seq<Byte>) returns (n: nat)
      requires QueueValid() && |inflight| < depth && piece != []
      modifies this`inflight, file`offset, file`nextId, file`pending, file`outstanding, file`sent, file`failures
      ensures QueueValid() && file.failures == old(file.failures) + (if n == 0 then 1 else 0)
      ensures n <= |piece| && (n > 0 ==> file.sent == old(file.sent) + piece[..n])
      ensures n == 0 ==> file.sent == old(file.sent)
      ensures n > 0 ==> inflight != [] && inflight[|inflight| - 1].data == piece[..n]
    {
      ghost var pending, outstanding, sent := file.pending, file.outstanding, file.sent;
      var begun := file.BeginWrite(piece);
      if begun.None? {
        return 0;
      }
      PushBack(inflight, pending, outstanding, begun.value, first + waited, begun.value.id, file.start, sent);
      inflight := inflight + [begun.value];
      n := |begun.value.data|;
    }

    static lemma BegunStep(before: seq<Byte>, data: seq<Byte>, k: nat, len: nat, n: nat, sent: seq<Byte>, sent': seq<Byte>)
      requires Begun(before, data, k, sent) && n <= len <= |data| - k
      requires sent' == sent + data[k..k + len][..n]
      ensures Begun(before, data, k + n, sent')
    {
      assert data[..k] + data[k..k + len][..n] == data[..k + n];
    }

    /** One turn of the writing loop: more of data begun after its first k bytes, or an error. */
    method WriteTurn(data: seq<Byte>, k: nat, ghost before: seq<Byte>) returns (r: Result<nat>)
      requires Valid() && k < |data| && Begun(before, data, k, file.sent)
      modifies this`inflight, this`waited, file
      ensures QueueValid() && (r.Ok? ==> Valid()) && file.isOpen == old(file.isOpen)
      ensures file.failures == old(file.failures) + (if r.Err? then 1 else 0)
      ensures r.Ok? ==> 1 <= r.value <= chunk && Begun(before, data, k + r.value, file.sent)
      ensures r.Ok? ==> inflight != [] && inflight[|inflight| - 1].data == data[k..k + r.value]
      ensures r.Err? ==> Begun(before, data, k, file.sent)
    {
      var outcome := MakeRoom();
      if outcome.Some? {
        return Err(outcome.value);
      }
      var len := Min(chunk, |data| - k);
      ghost var sent := file.sent;
      var n := Submit(data[k..k + len]);
      if n == 0 {
        return Err(1);
      }
      BegunStep(before, data, k, len, n, sent, file.sent);
      r := Ok(n);
    }

    /** The writing loop: k bytes are begun, and all of data unless there is an error. */
    method WriteLoop(data: seq<Byte>) returns (r: Result<()>, k: nat)
      requires Valid()
      modifies this`inflight, this`waited, file
      ensures QueueValid() && file.isOpen == old(file.isOpen)
      ensures Begun(old(file.sent), data, k, file.sent)
      ensures r.Ok? ==> k == |data| && (!reported ==> FirstVisible(file.fate, first, waited).None?)
      ensures file.failures == old(file.failures) + (if r.Err? then 1 else 0)
    {
      k := 0;
      assert data[..0] == [];
      while k < |data|
        invariant Valid() && file.isOpen == old(file.isOpen) && file.failures == old(file.failures)
        invariant Begun(old(file.sent), data, k, file.sent)
      {
        var n := WriteTurn(data, k, old(file.sent));
        if n.Err? {
          return Err(n.code), k;
        }
        k := k + n.value;
      }
      r := Ok(());
    }

    /** Begins all of data, waiting only to keep the queue within depth. */
    method TryWrite(data: seq<Byte>) returns (r: Result<()>)
      requires Valid()
      modifies this, file
      ensures Valid()
      ensures r.Err? <==> !file.isOpen || file.failures > old(file.failures)
      ensures r.Ok? ==> file.sent == old(file.sent) + data && reported == old(reported)
      ensures r.Err? ==> reported && exists k :: Begun(old(file.sent), data, k, file.sent)
    {
      if !file.isOpen {
        assert data[..0] == [] && Begun(old(file.sent), data, 0, file.sent);
        reported := true;
        return Err(1);
      }
      var k;
      r, k := WriteLoop(data);
      assert data[..|data|] == data;
      reported := reported || r.Err?;
    }

    /** Drains the queue, remembering the first error whose code is not 0. */
    method DrainAll() returns (firstError: nat)
      requires QueueValid()
      modifies this`inflight, this`waited, file`content, file`pending, file`outstanding, file`failed, file`failures
      ensures QueueValid() && inflight == [] && waited == old(waited) + |old(inflight)|
      ensures FirstVisible(file.fate, first + old(waited), |old(inflight)|) == if firstError == 0 then None else Some(firstError)
      ensures file.failures == old(file.failures) + Failures(file.fate, first + old(waited), |old(inflight)|)
    {
      firstError := 0;
      ghost var n := 0;
      while inflight != []
        invariant QueueValid() && waited == old(waited) + n && n + |inflight| == |old(inflight)|
        invariant FirstVisible(file.fate, first + old(waited), n) == if firstError == 0 then None else Some(firstError)
        invariant file.failures == old(file.failures) + Failures(file.fate, first + old(waited), n)
        decreases |inflight|
      {
        var outcome := DrainOne();
        n := n + 1;
        if outcome.Some? && firstError == 0 {
          firstError := outcome.value;
        }
      }
    }

    lemma EmptyQueue()
      requires QueueValid() && inflight == []
      ensures file.outstanding == {} && file.pending == {}
      ensures AllSucceeded(file.fate, first, waited) ==> file.content == Overlay(file.base, file.start, file.sent)
    {
      assert file.pending == {} && file.outstanding == {};
      NoFailures(file.fate, first, waited);
      if AllSucceeded(file.fate, first, waited) {
        assert file.pending + file.failed == {};
        SettledIsOverlay(file.content, file.base, file.start, file.sent);
      }
    }

    /** Waits for everything in flight and returns the first error whose code is not 0.
        If no call has reported an error and no failure was silent, the file is the old one
        with everything written laid over it. */
    method TryFlush() returns (r: Result<()>)
      requires Valid()
      modifies this, file`content, file`pending, file`outstanding, file`failed, file`failures
      ensures Valid() && inflight == [] && file.outstanding == {} && file.pending == {}
      ensures file.sent == old(file.sent) && waited == old(waited) + |old(inflight)|
      ensures var seen := FirstVisible(file.fate, first + old(waited), |old(inflight)|);
        r == if seen.Some? then Err(seen.value) else Ok(())
      ensures file.failures == old(file.failures) + Failures(file.fate, first + old(waited), |old(inflight)|)
      ensures !file.mayFail || AllSucceeded(file.fate, first + old(waited), |old(inflight)|) ==> r.Ok?
      ensures reported == (old(reported) || r.Err?)
      ensures AllSucceeded(file.fate, first, waited) ==> file.content == Overlay(file.base, file.start, file.sent)
      ensures !reported ==> (AllSucceeded(file.fate, first, waited) <==> NoSilentFailure(file.fate, first, waited))
    {
      ghost var before, queued := waited, |inflight|;
      var firstError := DrainAll();
      r := if firstError != 0 then Err(firstError) else Ok(());
      EmptyQueue();
      FirstVisibleMeaning(file.fate, first + before, queued);
      assert firstError != 0 ==> !AllSucceeded(file.fate, first + before, queued);
      if !reported && r.Ok? {
        NothingVisibleInBoth(file.fate, first, before, queued);
        NothingVisible(file.fate, first, waited);
      }
      reported := reported || r.Err?;
    }

    /** ~WriteBehind flushes; what the flush returns goes to the destructor error handler. */
    method Destroy() returns (handled: Result<()>)
      requires Valid()
      modifies this, file`content, file`pending, file`outstanding, file`failed, file`failures
      ensures inflight == [] && file.outstanding == {} && waited == old(waited) + |old(inflight)|
      ensures var seen := FirstVisible(file.fate, first + old(waited), |old(inflight)|);
        handled == if seen.Some? then Err(seen.value) else Ok(())
      ensures AllSucceeded(file.fate, first, waited) ==> file.content == Overlay(file.base, file.start, file.sent)
    {
      handled := TryFlush();
    }
  }
}
