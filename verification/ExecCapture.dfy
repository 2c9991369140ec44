/** The output loop of Exec::try_run: two streams drained in turn into bounded texts or into a sink. */
module ExecCapture {
  import opened Basics

  const CHUNK: nat := 16384

  datatype Stream = Stdout | Stderr

  /** A non-empty read, in arrival order. */
  datatype Chunk = Chunk(stream: Stream, data: seq<Byte>)

  /** What libssh and the clock answer during one turn of the loop; a failed call is a negative number. */
  datatype Turn = Turn(availOut: int, gotOut: int, availErr: int, gotErr: int, remoteEof: bool, late: bool)

  predicate Offers(t: Turn, stream: Stream) {
    if stream == Stdout then t.availOut > 0 && t.gotOut > 0 else t.availErr > 0 && t.gotErr > 0
  }

  /** Turns in which the stream hands over bytes, if it has any. */
  function OfferCount(turns: seq<Turn>, stream: Stream): nat {
    if turns == [] then 0
    else OfferCount(turns[..|turns| - 1], stream) + (if Offers(turns[|turns| - 1], stream) then 1 else 0)
  }

  lemma OneMoreTurn(turns: seq<Turn>, i: nat, stream: Stream)
    requires i < |turns|
    ensures OfferCount(turns[..i + 1], stream) == OfferCount(turns[..i], stream) + (if Offers(turns[i], stream) then 1 else 0)
  {
    assert turns[..i + 1][..i] == turns[..i];
  }

  /** By turn i each stream has had the chance to hand over so many bytes. */
  predicate Served(turns: seq<Turn>, i: nat, out: nat, err: nat)
    requires i <= |turns|
  {
    OfferCount(turns[..i], Stdout) >= out && OfferCount(turns[..i], Stderr) >= err
  }

  /** The remote end reports its EOF in some turn before which both streams have been served. Nothing is
      asked of the other turns. */
  predicate Fair(turns: seq<Turn>, out: nat, err: nat) {
    exists j :: 0 <= j < |turns| && turns[j].remoteEof && Served(turns, j, out, err)
  }

  /** Streams that hand over bytes in every turn are fair, if turns enough come before one that reports EOF. */
  lemma SteadyIsFair(turns: seq<Turn>, j: nat, out: nat, err: nat)
    requires j < |turns| && turns[j].remoteEof && j >= out && j >= err
    requires forall i :: 0 <= i < |turns| ==> turns[i].availOut >= 1 && turns[i].gotOut >= 1 && turns[i].availErr >= 1 && turns[i].gotErr >= 1
    ensures Fair(turns, out, err)
  {
    OffersOfSteady(turns, j);
  }

  lemma {:induction false} OffersOfSteady(turns: seq<Turn>, k: nat)
    requires k <= |turns|
    requires forall i :: 0 <= i < |turns| ==> turns[i].availOut >= 1 && turns[i].gotOut >= 1 && turns[i].availErr >= 1 && turns[i].gotErr >= 1
    ensures OfferCount(turns[..k], Stdout) == k && OfferCount(turns[..k], Stderr) == k
  {
    if k > 0 {
      OffersOfSteady(turns, k - 1);
      OneMoreTurn(turns, k - 1, Stdout);
      OneMoreTurn(turns, k - 1, Stderr);
    }
  }

  /** No read fails, and the deadline does not pass. */
  predicate Undisturbed(turns: seq<Turn>, hasTimeout: bool) {
    forall i :: 0 <= i < |turns| ==> turns[i].gotOut >= 0 && turns[i].gotErr >= 0 && !(hasTimeout && turns[i].late)
  }

  /** After i turns without an end: out and err bytes were there at first, o and e are left. */
  predicate GoesOn(turns: seq<Turn>, i: nat, out: nat, err: nat, o: nat, e: nat)
    requires i <= |turns|
  {
    && o <= out && e <= err
    && out - o >= Min(OfferCount(turns[..i], Stdout), out)
    && err - e >= Min(OfferCount(turns[..i], Stderr), err)
    && forall j :: 0 <= j < i && turns[j].remoteEof ==> !Served(turns, j, out, err)
  }

  lemma GoesOnStep(turns: seq<Turn>, i: nat, out: nat, err: nat, o: nat, e: nat, o': nat, e': nat)
    requires i < |turns| && GoesOn(turns, i, out, err, o, e) && o' <= o && e' <= e
    requires Offers(turns[i], Stdout) && o > 0 ==> o' < o
    requires Offers(turns[i], Stderr) && e > 0 ==> e' < e
    requires !(turns[i].remoteEof && o == 0 && e == 0)
    ensures GoesOn(turns, i + 1, out, err, o', e')
  {
    OneMoreTurn(turns, i, Stdout);
    OneMoreTurn(turns, i, Stderr);
  }

  datatype Outcome = Finished | Failed(code: nat) | TimedOut | StillRunning

  /** Bytes of either stream not read yet. */
  datatype Rests = Unread(out: nat, err: nat)

  /** The stream has bytes by now, and reading them fails. */
  predicate ReadFails(t: Turn, stream: Stream, rest: nat) {
    rest > 0 && if stream == Stdout then t.availOut > 0 && t.gotOut < 0 else t.availErr > 0 && t.gotErr < 0
  }

  /** How much a turn reads of a stream with so much left. */
  function Drawn(t: Turn, stream: Stream, rest: nat): (n: nat)
    ensures n <= Min(CHUNK, rest)
  {
    if !Offers(t, stream) then 0 else Min(if stream == Stdout then t.gotOut else t.gotErr, Min(CHUNK, rest))
  }

  /** What a turn leaves unread. A failed read of the first stream ends it before the second. */
  function AfterTurn(t: Turn, r: Rests): Rests {
    Unread(r.out - Drawn(t, Stdout, r.out), if ReadFails(t, Stdout, r.out) then r.err else r.err - Drawn(t, Stderr, r.err))
  }

  /** The turn finds nothing more to read on the stream. */
  predicate Quiet(t: Turn, stream: Stream, rest: nat) {
    rest == 0 || if stream == Stdout then t.availOut <= 0 else t.availErr <= 0
  }

  /** How a turn ends the run, if it does: a failed read first, then the end of the output, then the deadline. */
  function Verdict(t: Turn, hasTimeout: bool, r: Rests): Option<Outcome> {
    if ReadFails(t, Stdout, r.out) || ReadFails(t, Stderr, r.err) then Some(Failed(1))
    else if t.remoteEof && AfterTurn(t, r) == Unread(0, 0) && Quiet(t, Stdout, r.out) && Quiet(t, Stderr, r.err) then Some(Finished)
    else if hasTimeout && t.late then Some(TimedOut)
    else None
  }

  /** What is left after the first k turns. */
  function After(turns: seq<Turn>, k: nat, r: Rests): Rests
    requires k <= |turns|
  {
    if k == 0 then r else AfterTurn(turns[k - 1], After(turns, k - 1, r))
  }

  /** The first k turns bring no end. */
  predicate NoEnd(turns: seq<Turn>, k: nat, hasTimeout: bool, r: Rests)
    requires k <= |turns|
  {
    k == 0 || (NoEnd(turns, k - 1, hasTimeout, r) && Verdict(turns[k - 1], hasTimeout, After(turns, k - 1, r)).None?)
  }

  /** The first turn that ends the run decides how; without one it is still running. */
  predicate Decided(turns: seq<Turn>, ran: nat, hasTimeout: bool, r: Rests, outcome: Outcome) {
    && ran <= |turns| && NoEnd(turns, ran, hasTimeout, r)
    && (if ran < |turns| then Verdict(turns[ran], hasTimeout, After(turns, ran, r)) == Some(outcome) else outcome == StillRunning)
  }

  function Arrived(log: seq<Chunk>): seq<Byte> {
    if log == [] then [] else Arrived(log[..|log| - 1]) + log[|log| - 1].data
  }

  function ArrivedOn(log: seq<Chunk>, stream: Stream): seq<Byte> {
    if log == [] then []
    else ArrivedOn(log[..|log| - 1], stream) + (if log[|log| - 1].stream == stream then log[|log| - 1].data else [])
  }

  /** text keeps received up to and including the read that reached max, and the flag says
      whether anything came after it. */
  predicate Kept(text: seq<Byte>, truncated: bool, received: seq<Byte>, max: nat) {
    && text <= received
    && |text| < max + CHUNK
    && (truncated <==> text != received)
    && (|text| < max ==> text == received)
  }

  /** The remote command's output as the channel hands it out. */
  class OutputChannel {
    const out: seq<Byte>
    const err: seq<Byte>
    var readOut: nat
    var readErr: nat

    ghost predicate Valid()
      reads this
    {
      readOut <= |out| && readErr <= |err|
    }

    function Output(stream: Stream): seq<Byte> {
      if stream == Stdout then out else err
    }

    function Position(stream: Stream): nat
      reads this
    {
      if stream == Stdout then readOut else readErr
    }

    /** Bytes of the stream not read yet. */
    function Rest(stream: Stream): (n: nat)
      reads this
      requires readOut <= |out| && readErr <= |err|
      ensures n <= |Output(stream)|
    {
      |Output(stream)| - Position(stream)
    }

    function Rests(): Rests
      reads this
      requires readOut <= |out| && readErr <= |err|
    {
      Unread(Rest(Stdout), Rest(Stderr))
    }

    ghost function Left(): nat
      reads this
      requires Valid()
    {
      Rest(Stdout) + Rest(Stderr)
    }

    constructor (out: seq<Byte>, err: seq<Byte>)
      ensures Valid() && this.out == out && this.err == err && readOut == 0 && readErr == 0
    {
      this.out, this.err, readOut, readErr := out, err, 0, 0;
    }

    /** try_bytes_available: whatever has arrived by now, or an error. */
    method BytesAvailable(stream: Stream, avail: int) returns (r: Result<nat>)
      requires Valid()
      ensures r == if avail < 0 then Err(1) else Ok(Min(avail, Rest(stream)))
    {
      r := if avail < 0 then Err(1) else Ok(Min(avail, Rest(stream)));
    }

    /** try_read_some: the next bytes of the stream, at most len of them, or an error. */
    method ReadSome(len: nat, stream: Stream, got: int) returns (r: Result<seq<Byte>>)
      requires Valid()
      modifies this
      ensures Valid()
      ensures r.Err? <==> got < 0
      ensures r.Err? ==> r.code == 1
      ensures r.Ok? ==> |r.value| == Min(got, Min(len, old(Rest(stream))))
      ensures Delivered(stream, if r.Ok? then r.value else [])
    {
      if got < 0 {
        return Err(1);
      }
      var n := Min(got, Min(len, Rest(stream)));
      r := Ok(Slice(Output(stream), Position(stream), n));
      if stream == Stdout {
        readOut := readOut + n;
      } else {
        readErr := readErr + n;
      }
    }

    /** data is what came next on the stream, and nothing was taken from the other. */
    twostate predicate Delivered(stream: Stream, data: seq<Byte>)
      reads this
    {
      && data == Slice(Output(stream), old(Position(stream)), |data|)
      && readOut == old(readOut) + (if stream == Stdout then |data| else 0)
      && readErr == old(readErr) + (if stream == Stderr then |data| else 0)
    }

    /** The query and the read that follows it when there is something: r holds nothing when there is not. */
    method Poll(stream: Stream, avail: int, got: int) returns (available: Result<nat>, r: Result<seq<Byte>>)
      requires Valid()
      modifies this
      ensures Valid()
      ensures available == if avail < 0 then Err(1) else Ok(Min(avail, old(Rest(stream))))
      ensures r.Err? <==> available.Ok? && available.value > 0 && got < 0
      ensures r.Err? ==> r.code == 1
      ensures r.Ok? ==> |r.value| == if avail > 0 && got > 0 then Min(got, Min(CHUNK, old(Rest(stream)))) else 0
      ensures Delivered(stream, if r.Ok? then r.value else [])
    {
      r := Ok([]);
      available := BytesAvailable(stream, avail);
      if available.Ok? && available.value > 0 {
        r := ReadSome(CHUNK, stream, got);
      }
    }

    /** is_eof: the peer has sent EOF and nothing is buffered. */
    method IsEof(remoteEof: bool) returns (eof: bool)
      requires Valid()
      ensures eof <==> remoteEof && Left() == 0
    {
      eof := remoteEof && readOut == |out| && readErr == |err|;
    }
  }

  /** The log holds the first o bytes of out and the first e bytes of err. */
  predicate Accounts(log: seq<Chunk>, out: seq<Byte>, err: seq<Byte>, o: nat, e: nat) {
    && o <= |out| && e <= |err|
    && ArrivedOn(log, Stdout) == out[..o] && ArrivedOn(log, Stderr) == err[..e]
  }

  lemma Arrival(log: seq<Chunk>, stream: Stream, data: seq<Byte>, out: seq<Byte>, err: seq<Byte>, o: nat, e: nat,
                o': nat, e': nat)
    requires Accounts(log, out, err, o, e)
    requires data == if stream == Stdout then Slice(out, o, |data|) else Slice(err, e, |data|)
    requires if stream == Stdout then o' == o + |data| && e' == e else o' == o && e' == e + |data|
    ensures Accounts(log + [Chunk(stream, data)], out, err, o', e')
  {
    assert (log + [Chunk(stream, data)])[..|log|] == log;
  }

  class Exec {
    const maxOutput: nat
    const mergeStderr: bool
    const hasSink: bool
    var stdoutText: seq<Byte>
    var stderrText: seq<Byte>
    var stdoutTruncated: bool
    var stderrTruncated: bool
    ghost var log: seq<Chunk>   // every non-empty read
    ghost var sunk: seq<Chunk>  // every call of the sink

    ghost predicate Captured()
      reads this
    {
      if hasSink then
        sunk == log && stdoutText == [] && stderrText == [] && !stdoutTruncated && !stderrTruncated
      else if mergeStderr then
        && Kept(stdoutText, stdoutTruncated, Arrived(log), maxOutput)
        && stderrText == [] && !stderrTruncated && sunk == []
      else
        && Kept(stdoutText, stdoutTruncated, ArrivedOn(log, Stdout), maxOutput)
        && Kept(stderrText, stderrTruncated, ArrivedOn(log, Stderr), maxOutput)
        && sunk == []
    }

    /** Every byte read so far is in the log, in order. */
    ghost predicate Tracks(ch: OutputChannel)
      reads this, ch
    {
      Accounts(log, ch.out, ch.err, ch.readOut, ch.readErr)
    }

    constructor (maxOutput: nat, mergeStderr: bool, hasSink: bool)
      ensures this.maxOutput == maxOutput && this.mergeStderr == mergeStderr && this.hasSink == hasSink
      ensures Captured() && log == []
    {
      this.maxOutput, this.mergeStderr, this.hasSink := maxOutput, mergeStderr, hasSink;
      stdoutText, stderrText, stdoutTruncated, stderrTruncated := [], [], false, false;
      log, sunk := [], [];
    }

    /** One read from one stream: to the sink, to its text, or dropped and flagged. */
    method Take(stream: Stream, data: seq<Byte>)
      requires Captured() && 0 < |data| <= CHUNK
      modifies this
      ensures Captured() && log == old(log) + [Chunk(stream, data)]
    {
      log := log + [Chunk(stream, data)];
      assert log[..|log| - 1] == old(log);
      if hasSink {
        sunk := sunk + [Chunk(stream, data)];
      } else if stream == Stdout || mergeStderr {
        if |stdoutText| < maxOutput {
          stdoutText := stdoutText + data;
        } else {
          stdoutTruncated := true;
        }
      } else {
        if |stderrText| < maxOutput {
          stderrText := stderrText + data;
        } else {
          stderrTruncated := true;
        }
      }
    }

    /** The part of one turn that serves one stream. */
    method Serve(ch: OutputChannel, stream: Stream, t: Turn)
      returns (available: Result<nat>, failure: Option<nat>)
      requires Captured() && Tracks(ch)
      modifies this, ch
      ensures Captured() && Tracks(ch) && old(log) <= log
      ensures available.Err? || available.value == 0 <==> Quiet(t, stream, old(ch.Rest(stream)))
      ensures failure == if ReadFails(t, stream, old(ch.Rest(stream))) then Some(1) else None
      ensures stream == Stdout ==> ch.readErr == old(ch.readErr)
      ensures stream == Stderr ==> ch.readOut == old(ch.readOut)
      ensures ch.Rest(stream) == old(ch.Rest(stream)) - Drawn(t, stream, old(ch.Rest(stream)))
    {
      failure := None;
      var r;
      var avail, got := if stream == Stdout then t.availOut else t.availErr, if stream == Stdout then t.gotOut else t.gotErr;
      available, r := ch.Poll(stream, avail, got);
      if r.Err? {
        return available, Some(r.code);
      }
      if |r.value| > 0 {
        Take(stream, r.value);
        Arrival(old(log), stream, r.value, ch.out, ch.err, old(ch.readOut), old(ch.readErr), ch.readOut, ch.readErr);
      }
    }

    /** One turn of the loop, and its verdict if it is the last. */
    method RunTurn(ch: OutputChannel, hasTimeout: bool, t: Turn) returns (verdict: Option<Outcome>)
      requires Captured() && Tracks(ch)
      modifies this, ch
      ensures Captured() && Tracks(ch) && old(log) <= log
      ensures verdict == Verdict(t, hasTimeout, old(ch.Rests()))
      ensures ch.Rests() == AfterTurn(t, old(ch.Rests()))
    {
      var availableOut, failure := Serve(ch, Stdout, t);
      if failure.Some? {
        return Some(Failed(failure.value));
      }
      var availableErr;
      availableErr, failure := Serve(ch, Stderr, t);
      if failure.Some? {
        return Some(Failed(failure.value));
      }
      var eof := ch.IsEof(t.remoteEof);
      if eof && (availableOut.Err? || availableOut.value == 0) && (availableErr.Err? || availableErr.value == 0) {
        return Some(Finished);
      }
      verdict := if hasTimeout && t.late then Some(TimedOut) else None;
    }

    /** What the capture comes to when all of both streams has arrived: each text is a beginning of its stream, all
        of it if that is shorter than the limit, and flagged if it is not all; merged, everything is in one text;
        with a sink, everything has gone there and nothing is kept. */
    lemma CaptureMeans(out: seq<Byte>, err: seq<Byte>)
      requires Captured() && ArrivedOn(log, Stdout) == out && ArrivedOn(log, Stderr) == err
      ensures !hasSink && !mergeStderr ==>
        && stdoutText <= out && stderrText <= err
        && (stdoutTruncated <==> stdoutText != out) && (stderrTruncated <==> stderrText != err)
        && (|out| < maxOutput ==> stdoutText == out) && (|err| < maxOutput ==> stderrText == err)
        && |stdoutText| < maxOutput + 16384 && |stderrText| < maxOutput + 16384
      ensures !hasSink && mergeStderr ==>
        && stderrText == [] && !stderrTruncated && |stdoutText| < maxOutput + 16384
        && (stdoutTruncated <==> |stdoutText| < |out| + |err|)
        && (|out| + |err| < maxOutput ==> !stdoutTruncated)
        && (!stdoutTruncated ==> multiset(stdoutText) == multiset(out) + multiset(err))
      ensures hasSink ==>
        stdoutText == [] && stderrText == [] && ArrivedOn(sunk, Stdout) == out && ArrivedOn(sunk, Stderr) == err
    {
      ArrivedConserves(log);
    }

    /** The loop: the turns decide how many of them it lasts, how it ends and what it has read. */
    method Loop(ch: OutputChannel, hasTimeout: bool, turns: seq<Turn>) returns (outcome: Outcome, ran: nat)
      requires Captured() && Tracks(ch)
      modifies this, ch
      ensures Captured() && Tracks(ch)
      ensures Decided(turns, ran, hasTimeout, old(ch.Rests()), outcome)
      ensures ch.Rests() == After(turns, if ran < |turns| then ran + 1 else ran, old(ch.Rests()))
    {
      ran := 0;
      while ran < |turns|
        invariant ran <= |turns| && Captured() && Tracks(ch)
        invariant NoEnd(turns, ran, hasTimeout, old(ch.Rests())) && ch.Rests() == After(turns, ran, old(ch.Rests()))
      {
        var verdict := RunTurn(ch, hasTimeout, turns[ran]);
        if verdict.Some? {
          return verdict.value, ran;
        }
        ran := ran + 1;
      }
      outcome := StillRunning;
    }

    /** The run, over a given behaviour of the channel: it ends with the first turn in which a read fails, the
        output is complete or the deadline has passed. A run that finishes has seen the whole output of both
        streams; if both streams get their turns, whatever lies between those, it does finish. */
    method Run(ch: OutputChannel, hasTimeout: bool, turns: seq<Turn>) returns (outcome: Outcome, ran: nat)
      requires Captured() && Tracks(ch) && log == []
      modifies this, ch
      ensures Captured() && Tracks(ch)
      ensures Judged(turns, ran, hasTimeout, old(ch.Rests()), outcome)
      ensures ch.Rests() == After(turns, if ran < |turns| then ran + 1 else ran, old(ch.Rests()))
      ensures forall i :: 0 <= i < |turns| && hasTimeout && turns[i].late ==> ran <= i && outcome != StillRunning
      ensures outcome.TimedOut? ==> hasTimeout && exists i :: 0 <= i < |turns| && turns[i].late
      ensures outcome.Failed? ==> exists i :: 0 <= i < |turns| && (turns[i].gotOut < 0 || turns[i].gotErr < 0)
      ensures outcome.Finished? ==>
        ArrivedOn(log, Stdout) == ch.out && ArrivedOn(log, Stderr) == ch.err
      ensures Undisturbed(turns, hasTimeout) && Fair(turns, old(ch.Rest(Stdout)), old(ch.Rest(Stderr))) ==> outcome.Finished?
    {
      ghost var rests := ch.Rests();
      outcome, ran := Loop(ch, hasTimeout, turns);
      RunEnds(turns, ran, hasTimeout, rests, outcome);
    }
  }

  /** An end is brought about by what it is named after; one that finishes leaves nothing unread. */
  lemma VerdictMeaning(t: Turn, hasTimeout: bool, r: Rests)
    ensures Verdict(t, hasTimeout, r) == Some(TimedOut) ==> hasTimeout && t.late
    ensures Verdict(t, hasTimeout, r).Some? && Verdict(t, hasTimeout, r).value.Failed? ==> t.gotOut < 0 || t.gotErr < 0
    ensures Verdict(t, hasTimeout, r) == Some(Finished) ==> AfterTurn(t, r) == Unread(0, 0)
    ensures t.remoteEof && r == Unread(0, 0) ==> Verdict(t, hasTimeout, r) == Some(Finished)
  {
  }

  /** A stream has bytes by now, and reading them fails. */
  predicate Breaks(t: Turn, r: Rests) {
    (r.out > 0 && t.availOut > 0 && t.gotOut < 0) || (r.err > 0 && t.availErr > 0 && t.gotErr < 0)
  }

  /** The channel reports its end, nothing is left after the turn, and the turn found nothing. */
  predicate Completes(t: Turn, r: Rests) {
    t.remoteEof && AfterTurn(t, r) == Unread(0, 0) && (r.out == 0 || t.availOut <= 0) && (r.err == 0 || t.availErr <= 0)
  }

  predicate IsLate(t: Turn, hasTimeout: bool) {
    hasTimeout && t.late
  }

  /** A turn that ends nothing: no read fails, the output is not complete, and it is not late. */
  predicate Outlived(t: Turn, hasTimeout: bool, r: Rests) {
    !Breaks(t, r) && !Completes(t, r) && !IsLate(t, hasTimeout)
  }

  /** How a turn ends a run: a failed read comes before the end of the output, and that before the deadline. */
  predicate EndsAs(t: Turn, hasTimeout: bool, r: Rests, outcome: Outcome) {
    && !Outlived(t, hasTimeout, r)
    && if Breaks(t, r) then outcome.Failed? else if Completes(t, r) then outcome == Finished else outcome == TimedOut
  }

  /** The run outlives ran turns; the next, if there is one, ends it. */
  predicate Judged(turns: seq<Turn>, ran: nat, hasTimeout: bool, r: Rests, outcome: Outcome) {
    && ran <= |turns|
    && (forall i :: 0 <= i < ran ==> Outlived(turns[i], hasTimeout, After(turns, i, r)))
    && if ran < |turns| then EndsAs(turns[ran], hasTimeout, After(turns, ran, r), outcome) else outcome == StillRunning
  }

  /** A turn reads what libssh hands out of each stream, 16384 bytes at most, and nothing of the second once a
      read of the first has failed. */
  lemma TurnReads(t: Turn, r: Rests)
    ensures var r' := AfterTurn(t, r);
      && r'.out <= r.out && r'.err <= r.err
      && r.out - r'.out == (if t.availOut > 0 && t.gotOut > 0 then Min(t.gotOut, Min(16384, r.out)) else 0)
      && r.err - r'.err == (if t.availErr > 0 && t.gotErr > 0 && !(r.out > 0 && t.availOut > 0 && t.gotOut < 0)
                            then Min(t.gotErr, Min(16384, r.err)) else 0)
  {
  }

  lemma TurnEnds(t: Turn, hasTimeout: bool, r: Rests)
    ensures Verdict(t, hasTimeout, r).None? <==> Outlived(t, hasTimeout, r)
    ensures Verdict(t, hasTimeout, r).Some? ==> EndsAs(t, hasTimeout, r, Verdict(t, hasTimeout, r).value)
  {
  }

  lemma {:induction false} NoEndAt(turns: seq<Turn>, k: nat, hasTimeout: bool, r: Rests, j: nat)
    requires k <= |turns| && NoEnd(turns, k, hasTimeout, r) && j < k
    ensures Outlived(turns[j], hasTimeout, After(turns, j, r))
  {
    if j < k - 1 {
      NoEndAt(turns, k - 1, hasTimeout, r, j);
    } else {
      TurnEnds(turns[j], hasTimeout, After(turns, j, r));
    }
  }

  lemma DecidedIsJudged(turns: seq<Turn>, ran: nat, hasTimeout: bool, r: Rests, outcome: Outcome)
    requires Decided(turns, ran, hasTimeout, r, outcome)
    ensures Judged(turns, ran, hasTimeout, r, outcome)
  {
    forall i | 0 <= i < ran ensures Outlived(turns[i], hasTimeout, After(turns, i, r)) {
      NoEndAt(turns, ran, hasTimeout, r, i);
    }
    if ran < |turns| {
      TurnEnds(turns[ran], hasTimeout, After(turns, ran, r));
    }
  }

  /** What a run comes to. */
  lemma RunEnds(turns: seq<Turn>, ran: nat, hasTimeout: bool, r: Rests, outcome: Outcome)
    requires Decided(turns, ran, hasTimeout, r, outcome)
    ensures Judged(turns, ran, hasTimeout, r, outcome)
    ensures forall i :: 0 <= i < |turns| && hasTimeout && turns[i].late ==> ran <= i && outcome != StillRunning
    ensures outcome.TimedOut? ==> hasTimeout && exists i :: 0 <= i < |turns| && turns[i].late
    ensures outcome.Failed? ==> exists i :: 0 <= i < |turns| && (turns[i].gotOut < 0 || turns[i].gotErr < 0)
    ensures outcome.Finished? ==> ran < |turns| && After(turns, ran + 1, r) == Unread(0, 0)
    ensures Undisturbed(turns, hasTimeout) && Fair(turns, r.out, r.err) ==> outcome.Finished?
  {
    DecidedIsJudged(turns, ran, hasTimeout, r, outcome);
    FairFinishes(turns, ran, hasTimeout, r, outcome);
    if ran < |turns| {
      VerdictMeaning(turns[ran], hasTimeout, After(turns, ran, r));
    }
    forall i | 0 <= i < |turns| && hasTimeout && turns[i].late ensures ran <= i && outcome != StillRunning {
      LateEnds(turns, ran, r, outcome, i);
    }
  }

  /** A command does not outlive its deadline: a late turn ends the run, if nothing has before, and as timed out
      unless a read of its own fails or it brings the end of the output. */
  lemma LateEnds(turns: seq<Turn>, ran: nat, r: Rests, outcome: Outcome, i: nat)
    requires Judged(turns, ran, true, r, outcome) && i < |turns| && turns[i].late
    ensures ran <= i && outcome != StillRunning
    ensures ran == i && !Breaks(turns[i], After(turns, i, r)) && !Completes(turns[i], After(turns, i, r)) ==> outcome == TimedOut
  {
  }

  lemma {:induction false} NoEndGoesOn(turns: seq<Turn>, k: nat, hasTimeout: bool, r: Rests)
    requires k <= |turns| && NoEnd(turns, k, hasTimeout, r)
    ensures GoesOn(turns, k, r.out, r.err, After(turns, k, r).out, After(turns, k, r).err)
  {
    if k > 0 {
      NoEndGoesOn(turns, k - 1, hasTimeout, r);
      var before, after := After(turns, k - 1, r), After(turns, k, r);
      VerdictMeaning(turns[k - 1], hasTimeout, before);
      GoesOnStep(turns, k - 1, r.out, r.err, before.out, before.err, after.out, after.err);
    }
  }

  /** If nothing fails or is late and both streams get their turns, the run finishes. */
  lemma FairFinishes(turns: seq<Turn>, ran: nat, hasTimeout: bool, r: Rests, outcome: Outcome)
    requires Decided(turns, ran, hasTimeout, r, outcome)
    ensures Undisturbed(turns, hasTimeout) && Fair(turns, r.out, r.err) ==> outcome.Finished?
  {
    if ran < |turns| {
      VerdictMeaning(turns[ran], hasTimeout, After(turns, ran, r));
    } else {
      NoEndGoesOn(turns, ran, hasTimeout, r);
    }
  }

  /** The arrival order is an interleaving: its length is the sum of the two streams. */
  lemma {:induction false} ArrivedConserves(log: seq<Chunk>)
    ensures |Arrived(log)| == |ArrivedOn(log, Stdout)| + |ArrivedOn(log, Stderr)|
    ensures multiset(Arrived(log)) == multiset(ArrivedOn(log, Stdout)) + multiset(ArrivedOn(log, Stderr))
  {
    if log != [] {
      ArrivedConserves(log[..|log| - 1]);
    }
  }
}
