/** pump: bytes in both directions between a socket and a channel, through one buffer. */
module Pump {
  import opened Basics

  /** What the channel and the socket do during one turn of the loop. avail, got, sent and n stand for the
      answers of libssh and the kernel; a failed call is a negative number. */
  datatype Turn = Turn(stop: bool, avail: int, got: int, sent: int, channelEof: bool,
                       readable: bool, received: int, written: int)

  datatype Outcome = Drained | Stopped | StillRunning

  /** One end: the bytes it will deliver, the bytes it has been given, and whether its inward
      direction has been shut. Its preconditions are the rules of half-close (section 5.3 of
      RFC 4254): nothing is written after EOF, and EOF is sent once. */
  class Endpoint {
    const incoming: seq<Byte>
    var position: nat
    var given: seq<Byte>
    var shut: bool
    var closed: bool

    ghost predicate Valid()
      reads this
    {
      position <= |incoming|
    }

    constructor (incoming: seq<Byte>)
      ensures Valid() && this.incoming == incoming && position == 0 && given == [] && !shut && !closed
    {
      this.incoming, position, given, shut, closed := incoming, 0, [], false, false;
    }

    /** Delivers the next n bytes into buf. */
    method Deliver(buf: array<Byte>, n: nat)
      requires Valid() && !closed && n <= buf.Length && position + n <= |incoming|
      modifies this`position, buf
      ensures Valid() && position == old(position) + n
      ensures buf[..n] == incoming[old(position)..position]
    {
      for i := 0 to n
        invariant position == old(position)
        invariant buf[..i] == incoming[position..position + i]
      {
        buf[i] := incoming[position + i];
      }
      position := position + n;
    }

    /** Takes the first k of the n bytes in buf. */
    method Accept(buf: array<Byte>, k: nat)
      requires !closed && !shut && k <= buf.Length
      modifies this`given
      ensures given == old(given) + buf[..k]
    {
      given := given + buf[..k];
    }

    method ShutInward()
      requires !closed && !shut
      modifies this`shut
      ensures shut
    {
      shut := true;
    }

    method Close()
      requires !closed
      modifies this`closed
      ensures closed
    {
      closed := true;
    }
  }

  class ForwardStats {
    var bytesOut: nat
    var bytesIn: nat

    constructor ()
      ensures bytesOut == 0 && bytesIn == 0
    {
      bytesOut, bytesIn := 0, 0;
    }
  }

  function Clamp(n: int, limit: nat): nat {
    if n < 0 then 0 else Min(n, limit)
  }

  datatype Side = Out | In

  /** One direction: how far its source has been read, what its sink has been given, and whether it has ended. */
  datatype Flow = Flow(position: nat, given: seq<Byte>, ended: bool)

  /** How many of the left bytes a turn takes, through a buffer of the given size. A receive on the socket
      waits until there is a byte, the end of the stream, or an error. */
  function Moves(side: Side, t: Turn, size: nat, left: nat): nat {
    match side
    case Out => Clamp(Min(t.avail, t.got), Min(size, left))
    case In => if t.readable && t.received >= 0 then Min(Max(1, t.received), Min(size, left)) else 0
  }

  /** How many bytes the other end takes at once. */
  function Room(side: Side, t: Turn): nat {
    match side
    case Out => Max(0, t.sent)
    case In => Max(0, t.written)
  }

  /** The channel's side ends when EOF is reported, once everything has been read; the socket's side with a
      receive that brings nothing. */
  predicate Ends(side: Side, t: Turn, n: nat, left: nat) {
    match side
    case Out => t.channelEof && left == 0
    case In => t.readable && n == 0
  }

  /** One turn of one direction that goes on. */
  function Step(side: Side, t: Turn, size: nat, incoming: seq<Byte>, f: Flow): Flow
    requires f.position <= |incoming|
  {
    var n := Moves(side, t, size, |incoming| - f.position);
    Flow(f.position + n, f.given + incoming[f.position..][..Min(Room(side, t), n)],
         Ends(side, t, n, |incoming| - f.position - n))
  }

  /** One turn; a direction that has ended stays as it is. */
  function StepOn(side: Side, t: Turn, size: nat, incoming: seq<Byte>, f: Flow): Flow
    requires f.position <= |incoming|
  {
    if f.ended then f else Step(side, t, size, incoming, f)
  }

  /** The first k turns of one direction. */
  function After(side: Side, turns: seq<Turn>, k: nat, size: nat, incoming: seq<Byte>, f: Flow): (r: Flow)
    requires k <= |turns| && f.position <= |incoming|
    ensures f.position <= r.position <= |incoming|
  {
    if k == 0 then f
    else StepOn(side, turns[k - 1], size, incoming, After(side, turns, k - 1, size, incoming, f))
  }

  /** The other end takes all that turn i has read. */
  predicate Whole(side: Side, turns: seq<Turn>, i: nat, size: nat, incoming: seq<Byte>, f: Flow)
    requires i < |turns| && f.position <= |incoming|
  {
    After(side, turns, i + 1, size, incoming, f).position - After(side, turns, i, size, incoming, f).position
      <= Room(side, turns[i])
  }

  /** The other end takes every buffer whole. */
  predicate Uncut(side: Side, turns: seq<Turn>, k: nat, size: nat, incoming: seq<Byte>, f: Flow)
    requires k <= |turns| && f.position <= |incoming|
  {
    forall i :: 0 <= i < k ==> Whole(side, turns, i, size, incoming, f)
  }

  /** What was read since the start has been passed on, in order. */
  predicate PassedOn(incoming: seq<Byte>, f: Flow, r: Flow)
    requires f.position <= r.position <= |incoming|
  {
    r.given == f.given + incoming[f.position..r.position]
  }

  /** The account of one direction: everything read was passed on exactly if uncut holds, which the number of
      bytes passed on tells; otherwise it is less. */
  predicate Account(incoming: seq<Byte>, f: Flow, r: Flow, uncut: bool)
    requires f.position <= r.position <= |incoming|
  {
    && |f.given| <= |r.given| <= |f.given| + r.position - f.position
    && (uncut <==> PassedOn(incoming, f, r))
    && (uncut <==> |r.given| - |f.given| == r.position - f.position)
  }

  lemma {:induction false} PassedOnIff(side: Side, turns: seq<Turn>, k: nat, size: nat, incoming: seq<Byte>, f: Flow)
    requires k <= |turns| && f.position <= |incoming|
    ensures Account(incoming, f, After(side, turns, k, size, incoming, f), Uncut(side, turns, k, size, incoming, f))
  {
    if k > 0 {
      PassedOnIff(side, turns, k - 1, size, incoming, f);
      PassOn(side, turns[k - 1], size, incoming, f, After(side, turns, k - 1, size, incoming, f),
             Uncut(side, turns, k - 1, size, incoming, f));
      assert Uncut(side, turns, k, size, incoming, f)
        <==> Uncut(side, turns, k - 1, size, incoming, f) && Whole(side, turns, k - 1, size, incoming, f);
    }
  }

  /** One turn more. */
  lemma PassOn(side: Side, t: Turn, size: nat, incoming: seq<Byte>, f: Flow, g: Flow, uncut: bool)
    requires f.position <= g.position <= |incoming| && Account(incoming, f, g, uncut)
    ensures var r := StepOn(side, t, size, incoming, g);
      Account(incoming, f, r, uncut && r.position - g.position <= Room(side, t))
  {
    var r := StepOn(side, t, size, incoming, g);
    var n := r.position - g.position;
    if uncut && n <= Room(side, t) {
      assert incoming[g.position..][..n] == incoming[g.position..r.position];
      assert incoming[f.position..g.position] + incoming[g.position..r.position] == incoming[f.position..r.position];
    } else {
      assert |r.given| < |f.given| + r.position - f.position;
    }
  }

  /** Ends that take a whole buffer at once are given everything. */
  lemma RoomForAll(side: Side, turns: seq<Turn>, k: nat, size: nat, incoming: seq<Byte>, f: Flow)
    requires k <= |turns| && f.position <= |incoming|
    requires forall i :: 0 <= i < k ==> (if side == Out then turns[i].sent else turns[i].written) >= size
    ensures PassedOn(incoming, f, After(side, turns, k, size, incoming, f))
  {
    forall i | 0 <= i < k ensures Whole(side, turns, i, size, incoming, f) {
      assert Room(side, turns[i]) >= size;
      var before := After(side, turns, i, size, incoming, f);
      assert before.ended || Step(side, turns[i], size, incoming, before).position - before.position <= size;
    }
    PassedOnIff(side, turns, k, size, incoming, f);
  }

  /** A receive on the socket fails in one of the first k turns. */
  predicate ReceiveFails(turns: seq<Turn>, k: nat)
    requires k <= |turns|
  {
    exists i :: 0 <= i < k && turns[i].readable && turns[i].received < 0
  }

  /** A direction that has ended has read everything, unless it is the socket's and a receive failed or there
      is no buffer. */
  lemma {:induction false} EndedIsDone(side: Side, turns: seq<Turn>, k: nat, size: nat, incoming: seq<Byte>, f: Flow)
    requires k <= |turns| && f.position <= |incoming| && !f.ended
    ensures var r := After(side, turns, k, size, incoming, f);
      r.ended ==> r.position == |incoming| || (side == In && (ReceiveFails(turns, k) || size == 0))
  {
    if k > 0 {
      EndedIsDone(side, turns, k - 1, size, incoming, f);
    }
  }

  /** What a turn takes: of the channel, what is there and what libssh hands out; of the socket, when it is
      readable and does not fail, at least a byte if there is one; never more than the buffer holds. */
  lemma TurnTakes(t: Turn, size: nat, left: nat)
    ensures Moves(Out, t, size, left) ==
      if t.avail > 0 && t.got > 0 then Min(Min(t.avail, t.got), Min(size, left)) else 0
    ensures t.readable && t.received > 0 ==> Moves(In, t, size, left) == Min(t.received, Min(size, left))
    ensures t.readable && t.received == 0 ==> Moves(In, t, size, left) == (if size > 0 && left > 0 then 1 else 0)
    ensures !t.readable || t.received < 0 ==> Moves(In, t, size, left) == 0
  {
  }

  /** Of what it takes the other end is given, in order, as much as it accepts; nothing of a failed write. */
  lemma TurnGives(side: Side, t: Turn, size: nat, incoming: seq<Byte>, f: Flow)
    requires f.position <= |incoming|
    ensures var r := Step(side, t, size, incoming, f);
      var accepted := if side == Out then t.sent else t.written; var n := r.position - f.position;
      && n == Moves(side, t, size, |incoming| - f.position)
      && |r.given| == |f.given| + (if accepted < 0 then 0 else Min(accepted, n))
      && r.given <= f.given + incoming[f.position..r.position]
  {
    var n := Moves(side, t, size, |incoming| - f.position);
    assert incoming[f.position..][..n] == incoming[f.position..f.position + n];
    assert incoming[f.position..][..Min(Room(side, t), n)] == incoming[f.position..f.position + n][..Min(Room(side, t), n)];
  }

  /** When a direction ends, exactly: the channel's in a turn that reports its EOF and leaves nothing to read;
      the socket's in a turn in which it is readable and the receive fails or finds nothing, or there is no buffer. */
  lemma {:induction false} EndedIff(side: Side, turns: seq<Turn>, k: nat, size: nat, incoming: seq<Byte>, f: Flow)
    requires k <= |turns| && f.position <= |incoming| && !f.ended
    ensures After(side, turns, k, size, incoming, f).ended <==> exists j :: 0 <= j < k && EndsIn(side, turns, j, size, incoming, f)
  {
    if k > 0 {
      EndedIff(side, turns, k - 1, size, incoming, f);
      var before := After(side, turns, k - 1, size, incoming, f);
      if before.ended {
        EndedIsDone(side, turns, k - 1, size, incoming, f);
      } else {
        assert After(side, turns, k, size, incoming, f).ended <==> EndsIn(side, turns, k - 1, size, incoming, f);
      }
    }
  }

  predicate EndsIn(side: Side, turns: seq<Turn>, j: nat, size: nat, incoming: seq<Byte>, f: Flow)
    requires j < |turns| && f.position <= |incoming|
  {
    if side == Out then turns[j].channelEof && After(side, turns, j + 1, size, incoming, f).position == |incoming|
    else
      turns[j].readable &&
      (turns[j].received < 0 || size == 0 || After(side, turns, j, size, incoming, f).position == |incoming|)
  }

  /** Turns among the first k in which the direction is given the chance to move. */
  function Chances(side: Side, turns: seq<Turn>, k: nat): nat
    requires k <= |turns|
  {
    if k == 0 then 0 else Chances(side, turns, k - 1) + (if Chance(side, turns[k - 1]) then 1 else 0)
  }

  predicate Chance(side: Side, t: Turn) {
    match side
    case Out => t.avail > 0 && t.got > 0
    case In => t.readable
  }

  /** A direction that goes on has moved a byte at every chance, as far as there were any. */
  lemma {:induction false} ChancesAreTaken(side: Side, turns: seq<Turn>, k: nat, size: nat, incoming: seq<Byte>, f: Flow)
    requires k <= |turns| && size >= 1 && f.position <= |incoming|
    ensures var r := After(side, turns, k, size, incoming, f);
      r.ended || r.position - f.position >= Min(Chances(side, turns, k), |incoming| - f.position + if side == In then 1 else 0)
  {
    if k > 0 {
      ChancesAreTaken(side, turns, k - 1, size, incoming, f);
    }
  }

  /** The channel reports its EOF in some turn by which it has had the chance to hand over its out bytes, and
      the socket is readable often enough for its inward bytes and the end. Nothing is asked of the other turns. */
  predicate Fair(turns: seq<Turn>, out: nat, inward: nat) {
    && Chances(In, turns, |turns|) > inward
    && exists j :: 0 <= j < |turns| && turns[j].channelEof && Chances(Out, turns, j + 1) >= out
  }

  /** Ends that move in every turn are fair, if there are turns enough and the channel reports its EOF in the last. */
  lemma SteadyIsFair(turns: seq<Turn>, out: nat, inward: nat)
    requires |turns| > inward && |turns| >= out && turns != [] && turns[|turns| - 1].channelEof
    requires forall i :: 0 <= i < |turns| ==> turns[i].avail >= 1 && turns[i].got >= 1 && turns[i].readable
    ensures Fair(turns, out, inward)
  {
    ChancesOfSteady(turns, |turns|);
  }

  lemma {:induction false} ChancesOfSteady(turns: seq<Turn>, k: nat)
    requires k <= |turns| && forall i :: 0 <= i < |turns| ==> turns[i].avail >= 1 && turns[i].got >= 1 && turns[i].readable
    ensures Chances(Out, turns, k) == k && Chances(In, turns, k) == k
  {
    if k > 0 {
      ChancesOfSteady(turns, k - 1);
    }
  }

  /** What has ended stays ended. */
  lemma EndedStays(side: Side, turns: seq<Turn>, j: nat, k: nat, size: nat, incoming: seq<Byte>, f: Flow)
    requires j <= k <= |turns| && f.position <= |incoming|
    requires After(side, turns, j, size, incoming, f).ended
    ensures After(side, turns, k, size, incoming, f).ended
  {
  }

  /** Fair turns end both directions. */
  lemma FairEnds(turns: seq<Turn>, size: nat, outs: seq<Byte>, out: Flow, ins: seq<Byte>, inward: Flow)
    requires size >= 1 && out.position <= |outs| && inward.position <= |ins|
    requires Fair(turns, |outs| - out.position, |ins| - inward.position)
    ensures After(Out, turns, |turns|, size, outs, out).ended && After(In, turns, |turns|, size, ins, inward).ended
  {
    var j :| 0 <= j < |turns| && turns[j].channelEof && Chances(Out, turns, j + 1) >= |outs| - out.position;
    ChancesAreTaken(Out, turns, j + 1, size, outs, out);
    EndedStays(Out, turns, j + 1, |turns|, size, outs, out);
    ChancesAreTaken(In, turns, |turns|, size, ins, inward);
  }

  /** Channel to socket, one turn: at most one buffer, of which the socket takes what it will, then the half-close. */
  method ServeChannel(channel: Endpoint, socket: Endpoint, buf: array<Byte>, t: Turn) returns (n: nat, eof: bool)
    requires channel.Valid() && !channel.closed && !socket.closed && !socket.shut && channel != socket
    modifies channel`position, socket`given, socket`shut, buf
    ensures channel.Valid() && n == channel.position - old(channel.position) && eof == socket.shut
    ensures Flow(channel.position, socket.given, socket.shut)
         == Step(Out, t, buf.Length, channel.incoming, Flow(old(channel.position), old(socket.given), false))
  {
    n, eof := 0, false;
    var available := Clamp(t.avail, |channel.incoming| - channel.position);
    if available > 0 {
      var got := Clamp(t.got, Min(buf.Length, available));
      if got > 0 {
        n := got;
        channel.Deliver(buf, n);
        var sent := Clamp(t.sent, n);  // the result of send is not looked at
        FrontOf(buf[..n], channel.incoming, old(channel.position), sent);
        assert buf[..n][..sent] == buf[..sent];
        socket.Accept(buf, sent);
      }
    }
    // is_eof holds only once everything has been read
    if t.channelEof && channel.position == |channel.incoming| {
      socket.ShutInward();
      eof := true;
    }
  }

  lemma FrontOf(data: seq<Byte>, incoming: seq<Byte>, start: nat, k: nat)
    requires k <= |data| && start + |data| <= |incoming| && data == incoming[start..start + |data|]
    ensures data[..k] == incoming[start..][..k]
  {
  }

  /** Socket to channel, one turn. A receive of nothing, or an error, ends the direction. */
  method ServeSocket(channel: Endpoint, socket: Endpoint, buf: array<Byte>, t: Turn) returns (n: nat, eof: bool)
    requires socket.Valid() && !channel.closed && !socket.closed && !channel.shut && channel != socket
    modifies socket`position, channel`given, channel`shut, buf
    ensures socket.Valid() && n == socket.position - old(socket.position) && eof == channel.shut
    ensures Flow(socket.position, channel.given, channel.shut)
         == Step(In, t, buf.Length, socket.incoming, Flow(old(socket.position), old(channel.given), false))
  {
    n, eof := 0, false;
    if t.readable {
      var available := Min(buf.Length, |socket.incoming| - socket.position);
      var received := if t.received < 0 then -1 else if available == 0 then 0 else Max(1, Min(t.received, available));
      if received > 0 {
        n := received;
        socket.Deliver(buf, n);
        var written := Clamp(t.written, n);  // nor is the result of try_write_all
        FrontOf(buf[..n], socket.incoming, old(socket.position), written);
        assert buf[..n][..written] == buf[..written];
        channel.Accept(buf, written);
      } else {
        channel.ShutInward();
        eof := true;
      }
    }
  }

  /** The body of the loop. */
  method ServeBoth(channel: Endpoint, socket: Endpoint, buf: array<Byte>, stats: ForwardStats, t: Turn,
                   channelEof: bool, clientEof: bool) returns (channelEof': bool, clientEof': bool)
    requires channel != socket && channel.Valid() && socket.Valid() && !channel.closed && !socket.closed
    requires channel.shut == clientEof && socket.shut == channelEof
    modifies channel`position, channel`given, channel`shut, socket`position, socket`given, socket`shut, buf, stats
    ensures channel.Valid() && socket.Valid() && channel.shut == clientEof' && socket.shut == channelEof'
    ensures Flow(channel.position, socket.given, channelEof')
         == StepOn(Out, t, buf.Length, channel.incoming, Flow(old(channel.position), old(socket.given), channelEof))
    ensures Flow(socket.position, channel.given, clientEof')
         == StepOn(In, t, buf.Length, socket.incoming, Flow(old(socket.position), old(channel.given), clientEof))
    ensures stats.bytesOut == old(stats.bytesOut) + channel.position - old(channel.position)
    ensures stats.bytesIn == old(stats.bytesIn) + socket.position - old(socket.position)
  {
    channelEof', clientEof' := channelEof, clientEof;
    var n;
    if !channelEof {
      n, channelEof' := ServeChannel(channel, socket, buf, t);
      stats.bytesOut := stats.bytesOut + n;
    }
    if !clientEof {
      n, clientEof' := ServeSocket(channel, socket, buf, t);
      stats.bytesIn := stats.bytesIn + n;
    }
  }

  /** Both directions have ended after k turns. */
  predicate BothEnded(turns: seq<Turn>, k: nat, size: nat, outs: seq<Byte>, out: Flow, ins: seq<Byte>, inward: Flow)
    requires k <= |turns| && out.position <= |outs| && inward.position <= |ins|
  {
    After(Out, turns, k, size, outs, out).ended && After(In, turns, k, size, ins, inward).ended
  }

  /** The loop goes on for at least k turns: until then there is no stop, and a direction is left. */
  predicate GoesOn(turns: seq<Turn>, k: nat, size: nat, outs: seq<Byte>, out: Flow, ins: seq<Byte>, inward: Flow)
    requires k <= |turns| && out.position <= |outs| && inward.position <= |ins|
  {
    k == 0 ||
    (GoesOn(turns, k - 1, size, outs, out, ins, inward) && !turns[k - 1].stop
     && !BothEnded(turns, k - 1, size, outs, out, ins, inward))
  }

  /** The loop does not outlive a stop. */
  lemma {:induction false} NoStopUntil(turns: seq<Turn>, k: nat, size: nat, outs: seq<Byte>, out: Flow, ins: seq<Byte>, inward: Flow)
    requires k <= |turns| && out.position <= |outs| && inward.position <= |ins|
    requires GoesOn(turns, k, size, outs, out, ins, inward)
    ensures forall i :: 0 <= i < k ==> !turns[i].stop
  {
    if k > 0 {
      NoStopUntil(turns, k - 1, size, outs, out, ins, inward);
    }
  }

  /** It runs for exactly ran turns. */
  predicate Lasts(turns: seq<Turn>, ran: nat, size: nat, outs: seq<Byte>, out: Flow, ins: seq<Byte>, inward: Flow)
    requires out.position <= |outs| && inward.position <= |ins|
  {
    && ran <= |turns| && GoesOn(turns, ran, size, outs, out, ins, inward)
    && (ran == |turns| || turns[ran].stop || BothEnded(turns, ran, size, outs, out, ins, inward))
  }

  /** The loop over a given behaviour of both ends, which decides all that happens: for how many turns it runs,
      how much each direction takes in each of them, and how much of that the other end is given. */
  method Loop(channel: Endpoint, socket: Endpoint, bufferSize: nat, stats: ForwardStats, turns: seq<Turn>) returns (ran: nat)
    requires channel != socket && channel.Valid() && socket.Valid()
    requires !channel.closed && !socket.closed && !channel.shut && !socket.shut
    modifies channel`position, channel`given, channel`shut, socket`position, socket`given, socket`shut, stats
    ensures channel.Valid() && socket.Valid()
    ensures Lasts(turns, ran, bufferSize,
                  channel.incoming, Flow(old(channel.position), old(socket.given), false),
                  socket.incoming, Flow(old(socket.position), old(channel.given), false))
    ensures Flow(channel.position, socket.given, socket.shut)
         == After(Out, turns, ran, bufferSize, channel.incoming, Flow(old(channel.position), old(socket.given), false))
    ensures Flow(socket.position, channel.given, channel.shut)
         == After(In, turns, ran, bufferSize, socket.incoming, Flow(old(socket.position), old(channel.given), false))
    ensures stats.bytesOut == old(stats.bytesOut) + channel.position - old(channel.position)
    ensures stats.bytesIn == old(stats.bytesIn) + socket.position - old(socket.position)
  {
    var buf := new Byte[bufferSize];
    var clientEof, channelEof := false, false;
    ghost var out, inward := Flow(channel.position, socket.given, false), Flow(socket.position, channel.given, false);
    ran := 0;
    while ran < |turns| && !turns[ran].stop && !(clientEof && channelEof)
      invariant ran <= |turns| && channel.Valid() && socket.Valid()
      invariant channel.shut == clientEof && socket.shut == channelEof
      invariant Flow(channel.position, socket.given, channelEof) == After(Out, turns, ran, bufferSize, channel.incoming, out)
      invariant Flow(socket.position, channel.given, clientEof) == After(In, turns, ran, bufferSize, socket.incoming, inward)
      invariant stats.bytesOut == old(stats.bytesOut) + channel.position - old(channel.position)
      invariant stats.bytesIn == old(stats.bytesIn) + socket.position - old(socket.position)
      invariant GoesOn(turns, ran, bufferSize, channel.incoming, out, socket.incoming, inward)
      decreases |turns| - ran
    {
      channelEof, clientEof := ServeBoth(channel, socket, buf, stats, turns[ran], channelEof, clientEof);
      ran := ran + 1;
    }
  }

  /** The pump. Each end is given the other's bytes in order, and EOF once and after them; both are closed once,
      when the loop ends. The counters are the bytes read: they are the bytes passed on, and nothing is lost,
      exactly when the other end takes every buffer whole. If both ends get their turns, whatever lies between
      those, the loop ends. */
  method Run(channel: Endpoint, socket: Endpoint, bufferSize: nat, stats: ForwardStats, turns: seq<Turn>)
    returns (outcome: Outcome, ran: nat)
    requires channel != socket && channel.Valid() && socket.Valid()
    requires !channel.closed && !socket.closed && !channel.shut && !socket.shut
    modifies channel, socket, stats
    ensures channel.Valid() && socket.Valid()
    ensures channel.closed == socket.closed == (outcome != StillRunning)
    ensures outcome == if channel.shut && socket.shut then Drained else if ran < |turns| then Stopped else StillRunning
    ensures var out, inward := Flow(old(channel.position), old(socket.given), false), Flow(old(socket.position), old(channel.given), false);
      && Lasts(turns, ran, bufferSize, channel.incoming, out, socket.incoming, inward)
      && Flow(channel.position, socket.given, socket.shut) == After(Out, turns, ran, bufferSize, channel.incoming, out)
      && Flow(socket.position, channel.given, channel.shut) == After(In, turns, ran, bufferSize, socket.incoming, inward)
      && Account(channel.incoming, out, After(Out, turns, ran, bufferSize, channel.incoming, out),
                 Uncut(Out, turns, ran, bufferSize, channel.incoming, out))
      && Account(socket.incoming, inward, After(In, turns, ran, bufferSize, socket.incoming, inward),
                 Uncut(In, turns, ran, bufferSize, socket.incoming, inward))
    ensures stats.bytesOut == old(stats.bytesOut) + channel.position - old(channel.position)
    ensures stats.bytesIn == old(stats.bytesIn) + socket.position - old(socket.position)
    ensures socket.shut ==> channel.position == |channel.incoming|
    ensures channel.shut ==> socket.position == |socket.incoming| || ReceiveFails(turns, ran) || bufferSize == 0
    ensures outcome == Stopped ==> turns[ran].stop
    ensures forall i :: 0 <= i < |turns| && turns[i].stop ==> ran <= i && outcome != StillRunning
    ensures bufferSize >= 1 && (forall i :: 0 <= i < |turns| ==> !turns[i].stop)
            && Fair(turns, |channel.incoming| - old(channel.position), |socket.incoming| - old(socket.position)) ==>
      outcome == Drained
  {
    ghost var out, inward := Flow(channel.position, socket.given, false), Flow(socket.position, channel.given, false);
    ran := Loop(channel, socket, bufferSize, stats, turns);
    outcome := if channel.shut && socket.shut then Drained else if ran < |turns| then Stopped else StillRunning;
    if outcome != StillRunning {
      channel.Close();
      socket.Close();
    }
    NoStopUntil(turns, ran, bufferSize, channel.incoming, out, socket.incoming, inward);
    PassedOnIff(Out, turns, ran, bufferSize, channel.incoming, out);
    PassedOnIff(In, turns, ran, bufferSize, socket.incoming, inward);
    EndedIsDone(Out, turns, ran, bufferSize, channel.incoming, out);
    EndedIsDone(In, turns, ran, bufferSize, socket.incoming, inward);
    if bufferSize >= 1 && Fair(turns, |channel.incoming| - out.position, |socket.incoming| - inward.position) {
      FairEnds(turns, bufferSize, channel.incoming, out, socket.incoming, inward);
    }
  }
}
