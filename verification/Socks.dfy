/** The SOCKS proxy's request readers, over a stream that recv delivers in arbitrary pieces, against
    the message formats of RFC 1928 (sections 3 to 5) and of SOCKS4. */
module Socks {
  import opened Basics
  import Pump

  const VERSION5: Byte := 5
  const VERSION4: Byte := 4
  const CONNECT: Byte := 1
  const MAX_USERID: nat := 255

  /** The destination's host as it stands in the request; the text that inet_ntop makes of the
      binary forms is not modelled. */
  datatype Host = IPv4(address: seq<Byte>) | Domain(name: seq<Byte>) | IPv6(address: seq<Byte>)

  datatype Target = Target(host: Host, port: nat)

  predicate WellFormed(t: Target) {
    t.port < 0x1_0000 &&
    match t.host
    case IPv4(address) => |address| == 4
    case Domain(name) => 1 <= |name| <= 255
    case IPv6(address) => |address| == 16
  }

  // ---- the formats ----

  function PortBytes(port: nat): seq<Byte>
    requires port < 0x1_0000
  {
    [(port / 256) as Byte, (port % 256) as Byte]
  }

  function HostBytes(h: Host): seq<Byte>
    requires h.Domain? ==> |h.name| <= 255
  {
    match h
    case IPv4(address) => [1] + address
    case Domain(name) => [3, |name| as Byte] + name
    case IPv6(address) => [4] + address
  }

  /** What a SOCKS5 client sends after the version byte: the methods it offers and its request. */
  function Encode5(methods: seq<Byte>, reserved: Byte, t: Target): seq<Byte>
    requires |methods| <= 255 && WellFormed(t)
  {
    [|methods| as Byte] + methods + [VERSION5, CONNECT, reserved] + HostBytes(t.host) + PortBytes(t.port)
  }

  /** What a SOCKS4 client sends after the version byte. */
  function Encode4(address: seq<Byte>, port: nat, userid: seq<Byte>): seq<Byte>
    requires |address| == 4 && port < 0x1_0000
  {
    [CONNECT] + PortBytes(port) + address + userid + [0]
  }

  // ---- the readers, as functions of the stream ----

  /** A parsed request and how many bytes of the stream it took. */
  datatype Parsed = Parsed(target: Target, consumed: nat)

  /** Network byte order. */
  function PortOf(high: Byte, low: Byte): nat {
    high as int * 256 + low as int
  }

  function Port(s: seq<Byte>, at: nat): nat
    requires at + 2 <= |s|
  {
    PortOf(s[at], s[at + 1])
  }

  function Finish(s: seq<Byte>, at: nat, host: Host): Option<Parsed> {
    if at + 2 > |s| then None else Some(Parsed(Target(host, Port(s, at)), at + 2))
  }

  function ParseHost(s: seq<Byte>, at: nat): Option<Parsed> {
    if at >= |s| then None
    else if s[at] == 1 then
      if at + 5 > |s| then None else Finish(s, at + 5, IPv4(s[at + 1..at + 5]))
    else if s[at] == 3 then
      if at + 2 > |s| || s[at + 1] == 0 || at + 2 + s[at + 1] as int > |s| then None
      else Finish(s, at + 2 + s[at + 1] as int, Domain(s[at + 2..at + 2 + s[at + 1] as int]))
    else if s[at] == 4 then
      if at + 17 > |s| then None else Finish(s, at + 17, IPv6(s[at + 1..at + 17]))
    else None
  }

  function Parse5(s: seq<Byte>): Option<Parsed> {
    if |s| < 1 || |s| < 1 + s[0] as int || 0 !in s[1..1 + s[0] as int] then None
    else
      var at: nat := 1 + s[0] as int;
      if |s| < at + 4 || s[at] != VERSION5 || s[at + 1] != CONNECT then None else ParseHost(s, at + 3)
  }

  /** Length of the user id that starts at at, if its terminator comes within the bound. */
  function UserIdLength(s: seq<Byte>, at: nat, limit: nat): Option<nat>
    decreases limit
  {
    if at >= |s| then None
    else if s[at] == 0 then Some(0)
    else if limit == 0 then None
    else
      var rest := UserIdLength(s, at + 1, limit - 1);
      if rest.None? then None else Some(1 + rest.value)
  }

  function Parse4(s: seq<Byte>): Option<Parsed> {
    if |s| < 7 || s[0] != CONNECT then None
    else
      var n := UserIdLength(s, 7, MAX_USERID);
      if n.None? then None else Some(Parsed(Target(IPv4(s[3..7]), Port(s, 1)), 7 + n.value + 1))
  }

  /** The whole request, with the version byte. */
  function Parse(s: seq<Byte>, allowSocks4: bool): Option<Parsed> {
    if s == [] then None
    else
      var r := if s[0] == VERSION4 && allowSocks4 then Parse4(s[1..])
               else if s[0] == VERSION5 then Parse5(s[1..]) else None;
      if r.None? then None else Some(r.value.(consumed := r.value.consumed + 1))
  }

  // ---- the readers invert the formats ----

  lemma PortRoundTrip(port: nat)
    requires port < 0x1_0000
    ensures PortOf(PortBytes(port)[0], PortBytes(port)[1]) == port
  {
  }

  lemma Placed(before: seq<Byte>, piece: seq<Byte>, after: seq<Byte>)
    ensures (before + piece + after)[|before|..|before| + |piece|] == piece
  {
  }

  /** The fields of the request, where they stand in s. */
  lemma ParseFields(s: seq<Byte>, at: nat, t: Target)
    requires WellFormed(t) && at + |HostBytes(t.host)| + 2 <= |s|
    requires s[at..at + |HostBytes(t.host)|] == HostBytes(t.host)
    requires s[at + |HostBytes(t.host)|..at + |HostBytes(t.host)| + 2] == PortBytes(t.port)
    ensures ParseHost(s, at) == Some(Parsed(t, at + |HostBytes(t.host)| + 2))
  {
    var end := at + |HostBytes(t.host)|;
    PortRoundTrip(t.port);
    assert s[end] == s[end..end + 2][0] && s[end + 1] == s[end..end + 2][1];
    assert s[at] == s[at..end][0];
    if t.host.Domain? {
      PeelTwo(s, at, end);
      assert s[at + 1] == s[at..end][1];
      assert s[at + 2..end] == HostBytes(t.host)[2..];
    } else {
      assert s[at + 1..end] == HostBytes(t.host)[1..];
    }
  }

  lemma ParseHostInverts(before: seq<Byte>, t: Target, rest: seq<Byte>)
    requires WellFormed(t)
    ensures ParseHost(before + HostBytes(t.host) + PortBytes(t.port) + rest, |before|)
         == Some(Parsed(t, |before| + |HostBytes(t.host)| + 2))
  {
    var host, port := HostBytes(t.host), PortBytes(t.port);
    var s := before + host + port + rest;
    Placed(before, host, port + rest);
    Placed(before + host, port, rest);
    assert s == before + host + (port + rest);
    ParseFields(s, |before|, t);
  }

  /** The method negotiation and the head of the request, where they stand in s. */
  lemma ParsePreamble(methods: seq<Byte>, reserved: Byte, tail: seq<Byte>)
    requires |methods| <= 255
    ensures var s := [|methods| as Byte] + methods + [VERSION5, CONNECT, reserved] + tail; var at := 1 + |methods|;
      && |s| >= at + 3 && s[0] as int == |methods| && s[1..at] == methods
      && s[at] == VERSION5 && s[at + 1] == CONNECT
  {
    var s := [|methods| as Byte] + methods + [VERSION5, CONNECT, reserved] + tail;
    Placed([|methods| as Byte], methods, [VERSION5, CONNECT, reserved] + tail);
    assert s == [|methods| as Byte] + methods + ([VERSION5, CONNECT, reserved] + tail);
  }

  /** Every encoded request is read back, whatever follows it, to its last byte and no further. */
  lemma Parse5Inverts(methods: seq<Byte>, reserved: Byte, t: Target, rest: seq<Byte>)
    requires |methods| <= 255 && 0 in methods && WellFormed(t)
    ensures Parse5(Encode5(methods, reserved, t) + rest) == Some(Parsed(t, |Encode5(methods, reserved, t)|))
  {
    var before := [|methods| as Byte] + methods + [VERSION5, CONNECT, reserved];
    var tail := HostBytes(t.host) + PortBytes(t.port) + rest;
    ParsePreamble(methods, reserved, tail);
    ParseHostInverts(before, t, rest);
    assert before + tail == before + HostBytes(t.host) + PortBytes(t.port) + rest;
  }

  lemma Cut(s: seq<Byte>, a: nat, b: nat)
    requires a <= b <= |s|
    ensures s[..b] == s[..a] + s[a..b]
  {
  }

  lemma CutFive(s: seq<Byte>, a: nat, b: nat, c: nat, d: nat, e: nat)
    requires a <= b <= c <= d <= e <= |s|
    ensures s[..e] == s[..a] + s[a..b] + s[b..c] + s[c..d] + s[d..e]
  {
    Cut(s, a, b);
    Cut(s, b, c);
    Cut(s, c, d);
    Cut(s, d, e);
  }

  lemma Peel(s: seq<Byte>, a: nat, b: nat)
    requires a < b <= |s|
    ensures s[a..b] == [s[a]] + s[a + 1..b]
  {
  }

  lemma PeelTwo(s: seq<Byte>, a: nat, b: nat)
    requires a + 2 <= b <= |s|
    ensures s[a..b] == [s[a], s[a + 1]] + s[a + 2..b]
  {
  }

  lemma PortOnlyEncodings(s: seq<Byte>, at: nat)
    requires at + 2 <= |s|
    ensures Port(s, at) < 0x1_0000 && s[at..at + 2] == PortBytes(Port(s, at))
  {
  }

  lemma DomainOnlyEncodings(s: seq<Byte>, at: nat, name: seq<Byte>)
    requires at + 2 + |name| <= |s| && s[at] == 3 && |name| == s[at + 1] as int && name == s[at + 2..at + 2 + |name|]
    ensures s[at..at + 2 + |name|] == HostBytes(Domain(name))
  {
    PeelTwo(s, at, at + 2 + |name|);
  }

  lemma AddressOnlyEncodings(s: seq<Byte>, at: nat, h: Host)
    requires h.IPv4? || h.IPv6?
    requires at + 1 + |h.address| <= |s| && s[at] == (if h.IPv4? then 1 else 4)
    requires h.address == s[at + 1..at + 1 + |h.address|]
    ensures s[at..at + 1 + |h.address|] == HostBytes(h)
  {
    Peel(s, at, at + 1 + |h.address|);
  }

  /** An accepted host field is the encoding of the host it yields. */
  lemma HostOnlyEncodings(s: seq<Byte>, at: nat)
    requires ParseHost(s, at).Some?
    ensures var p := ParseHost(s, at).value;
      && at + 2 < p.consumed <= |s| && WellFormed(p.target)
      && s[at..p.consumed - 2] == HostBytes(p.target.host)
      && s[p.consumed - 2..p.consumed] == PortBytes(p.target.port)
  {
    var p := ParseHost(s, at).value;
    PortOnlyEncodings(s, p.consumed - 2);
    match p.target.host
    case Domain(name) => DomainOnlyEncodings(s, at, name);
    case _ => AddressOnlyEncodings(s, at, p.target.host);
  }

  /** And only encoded requests are accepted. */
  lemma Parse5OnlyEncodings(s: seq<Byte>)
    requires Parse5(s).Some?
    ensures var p := Parse5(s).value; var methods := s[1..1 + s[0] as int];
      && p.consumed <= |s| && WellFormed(p.target) && 0 in methods
      && s[..p.consumed] == Encode5(methods, s[3 + s[0] as int], p.target)
  {
    var p, methods := Parse5(s).value, s[1..1 + s[0] as int];
    var at: nat := 1 + s[0] as int;
    HostOnlyEncodings(s, at + 3);
    assert s[..1] == [|methods| as Byte] && s[at..at + 3] == [VERSION5, CONNECT, s[at + 2]];
    CutFive(s, 1, at, at + 3, p.consumed - 2, p.consumed);
  }

  lemma {:induction false} UserIdLengthOf(s: seq<Byte>, at: nat, limit: nat, n: nat)
    requires at + n < |s| && s[at + n] == 0 && forall i :: at <= i < at + n ==> s[i] != 0
    ensures UserIdLength(s, at, limit) == if n <= limit then Some(n) else None
    decreases limit
  {
    if n > 0 && limit > 0 {
      UserIdLengthOf(s, at + 1, limit - 1, n - 1);
    }
  }

  /** A SOCKS4 request is read back exactly when its user id has at most 255 bytes. */
  lemma Parse4Inverts(address: seq<Byte>, port: nat, userid: seq<Byte>, rest: seq<Byte>)
    requires |address| == 4 && port < 0x1_0000 && 0 !in userid
    ensures Parse4(Encode4(address, port, userid) + rest) ==
      if |userid| <= MAX_USERID then Some(Parsed(Target(IPv4(address), port), |Encode4(address, port, userid)|))
      else None
  {
    var s := Encode4(address, port, userid) + rest;
    assert s == [CONNECT] + PortBytes(port) + address + userid + [0] + rest;
    assert s[3..7] == address && s[1] == PortBytes(port)[0] && s[2] == PortBytes(port)[1];
    PortRoundTrip(port);
    assert s[7..7 + |userid|] == userid && s[7 + |userid|] == 0;
    assert forall i :: 7 <= i < 7 + |userid| ==> s[i] == userid[i - 7];
    UserIdLengthOf(s, 7, MAX_USERID, |userid|);
  }

  lemma {:induction false} UserIdLengthMeaning(s: seq<Byte>, at: nat, limit: nat)
    requires UserIdLength(s, at, limit).Some?
    ensures var n := UserIdLength(s, at, limit).value;
      n <= limit && at + n < |s| && s[at + n] == 0 && forall i :: at <= i < at + n ==> s[i] != 0
    decreases limit
  {
    if s[at] != 0 {
      UserIdLengthMeaning(s, at + 1, limit - 1);
    }
  }

  lemma Parse4OnlyEncodings(s: seq<Byte>)
    requires Parse4(s).Some?
    ensures var p := Parse4(s).value;
      && 8 <= p.consumed <= |s| && WellFormed(p.target) && p.target.host.IPv4?
      && p.consumed - 8 <= MAX_USERID && 0 !in s[7..p.consumed - 1]
      && s[..p.consumed] == Encode4(p.target.host.address, p.target.port, s[7..p.consumed - 1])
  {
    UserIdLengthMeaning(s, 7, MAX_USERID);
    var end := Parse4(s).value.consumed;
    PortOnlyEncodings(s, 1);
    assert s[..1] == [s[0]] && s[end - 1..end] == [s[end - 1]];
    CutFive(s, 1, 3, 7, end - 1, end);
  }

  // ---- the readers, as the proxy runs them ----

  /** The client's connection: the bytes it sends before it ends or fails, and those sent to it, of
      which it takes no more than capacity before sending fails. */
  class Socket {
    const stream: seq<Byte>
    const capacity: nat
    var position: nat
    var sent: seq<Byte>
    var closed: bool

    ghost predicate Valid()
      reads this
    {
      position <= |stream| && |sent| <= capacity && !closed
    }

    function Rest(): seq<Byte>
      reads this
      requires position <= |stream|
    {
      stream[position..]
    }

    constructor (stream: seq<Byte>, capacity: nat)
      ensures Valid() && this.stream == stream && this.capacity == capacity && position == 0 && sent == []
    {
      this.stream, this.capacity, position, sent, closed := stream, capacity, 0, [], false;
    }

    /** recv: any non-empty piece of what is left, up to len bytes; nothing at the end. */
    method Recv(len: nat) returns (piece: seq<Byte>)
      requires Valid() && len > 0
      modifies this`position
      ensures Valid() && |piece| <= len && position == old(position) + |piece|
      ensures piece == stream[old(position)..position]
      ensures piece == [] <==> old(position) == |stream|
    {
      var n: int := *;
      var available := Min(len, |stream| - position);
      n := if 1 <= n <= available then n else available;
      piece := stream[position..position + n];
      position := position + n;
    }

    /** send: a non-empty front part of data, or a failure once capacity is used up. */
    method Send(data: seq<Byte>) returns (n: int)
      requires Valid() && data != []
      modifies this`sent
      ensures Valid() && n <= |data|
      ensures n > 0 <==> |old(sent)| < capacity
      ensures sent == old(sent) + (if n > 0 then data[..n] else [])
    {
      var room := Min(|data|, capacity - |sent|);
      if room == 0 {
        return -1;
      }
      n := *;
      n := if 1 <= n <= room then n else room;
      sent := sent + data[..n];
    }

    /** Exactly the next len bytes, however they arrive; None exactly when the stream is shorter. */
    method RecvExact(len: nat) returns (r: Option<seq<Byte>>)
      requires Valid()
      modifies this`position
      ensures Valid()
      ensures r == if len <= |old(Rest())| then Some(old(Rest())[..len]) else None
      ensures r.Some? ==> position == old(position) + len
    {
      var got: seq<Byte> := [];
      while |got| < len
        invariant Valid() && |got| <= len && position == old(position) + |got|
        invariant got == stream[old(position)..position]
        decreases len - |got|
      {
        var piece := Recv(len - |got|);
        if piece == [] {
          return None;
        }
        got := got + piece;
      }
      assert old(Rest())[..len] == got;
      r := Some(got);
    }

    /** All of data, or as much as the connection takes. */
    method SendExact(data: seq<Byte>) returns (ok: bool)
      requires Valid()
      modifies this`sent
      ensures Valid() && (ok <==> |old(sent)| + |data| <= capacity)
      ensures sent == Fitting(old(sent) + data, capacity)
    {
      var done := 0;
      assert data[..0] == [];
      while done < |data|
        invariant Valid() && done <= |data| && sent == old(sent) + data[..done]
      {
        var n := Send(data[done..]);
        if n <= 0 {
          assert sent == (old(sent) + data)[..capacity];
          return false;
        }
        assert data[..done] + data[done..][..n] == data[..done + n];
        done := done + n;
      }
      assert data[..done] == data;
      ok := true;
    }

    method Close()
      requires !closed
      modifies this`closed
      ensures closed
    {
      closed := true;
    }

    /** read_socks5_request. It succeeds exactly when the request is complete and the connection
        takes the reply that chooses the method. */
    method ReadSocks5Request() returns (r: Option<Target>)
      requires Valid()
      modifies this`position, this`sent
      ensures Valid()
      ensures sent == Fitting(old(sent) + MethodReply(old(Rest())), capacity)
      ensures var p := Parse5(old(Rest()));
        && (r.Some? <==> p.Some? && |old(sent)| + 2 <= capacity)
        && (r.Some? ==> r.value == p.value.target && position == old(position) + p.value.consumed)
    {
      ghost var s := Rest();
      var count := RecvExact(1);
      if count.None? {
        return None;
      }
      var methods := RecvExact(count.value[0] as int);
      if methods.None? {
        return None;
      }
      assert Rest() == s[1 + s[0] as int..] && methods.value == s[1..1 + s[0] as int];
      var noAuth := 0 in methods.value;
      var replied := SendExact([VERSION5, if noAuth then 0 else 0xff]);
      if !replied || !noAuth {
        return None;
      }
      var request := RecvExact(4);
      if request.None? {
        return None;
      }
      ghost var at: nat := 1 + s[0] as int;
      assert request.value == s[at..at + 4];
      if request.value[0] != VERSION5 || request.value[1] != CONNECT {
        return None;
      }
      r := ReadAddress(request.value[3], s, at + 3);
    }

    /** The address and port fields, after their type byte at s[at]. */
    method ReadAddress(kind: Byte, ghost s: seq<Byte>, ghost at: nat) returns (r: Option<Target>)
      requires Valid() && at < |s| && kind == s[at] && Rest() == s[at + 1..]
      modifies this`position
      ensures Valid()
      ensures r == match ParseHost(s, at) { case Some(p) => Some(p.target) case None => None }
      ensures r.Some? ==> position + at + 1 == old(position) + ParseHost(s, at).value.consumed
    {
      var host, next := ReadHost(kind, s, at);
      if host.None? {
        return None;
      }
      var port := RecvExact(2);
      if port.None? {
        return None;
      }
      assert port.value[0] == s[next] && port.value[1] == s[next + 1];
      r := Some(Target(host.value, PortOf(port.value[0], port.value[1])));
    }

    /** The address field, which ends before s[next]. */
    method ReadHost(kind: Byte, ghost s: seq<Byte>, ghost at: nat) returns (host: Option<Host>, ghost next: nat)
      requires Valid() && at < |s| && kind == s[at] && Rest() == s[at + 1..]
      modifies this`position
      ensures Valid()
      ensures host.None? ==> ParseHost(s, at).None?
      ensures host.Some? ==>
        && at < next <= |s| && Rest() == s[next..] && position + at + 1 == old(position) + next
        && ParseHost(s, at) == Finish(s, next, host.value)
    {
      next := 0;
      if kind == 1 {
        var address := RecvExact(4);
        if address.None? {
          return None, 0;
        }
        host, next := Some(IPv4(address.value)), at + 5;
        assert address.value == s[at + 1..next];
      } else if kind == 3 {
        host, next := ReadDomain(s, at);
      } else if kind == 4 {
        var address := RecvExact(16);
        if address.None? {
          return None, 0;
        }
        host, next := Some(IPv6(address.value)), at + 17;
        assert address.value == s[at + 1..next];
      } else {
        return None, 0;
      }
    }

    method ReadDomain(ghost s: seq<Byte>, ghost at: nat) returns (host: Option<Host>, ghost next: nat)
      requires Valid() && at < |s| && s[at] == 3 && Rest() == s[at + 1..]
      modifies this`position
      ensures Valid()
      ensures host.None? ==> ParseHost(s, at).None?
      ensures host.Some? ==>
        && at < next <= |s| && Rest() == s[next..] && position + at + 1 == old(position) + next
        && ParseHost(s, at) == Finish(s, next, host.value)
    {
      next := 0;
      var len := RecvExact(1);
      if len.None? || len.value[0] == 0 {
        return None, 0;
      }
      assert Rest() == s[at + 2..] && len.value[0] == s[at + 1];
      var name := RecvExact(len.value[0] as int);
      if name.None? {
        return None, 0;
      }
      host, next := Some(Domain(name.value)), at + 2 + s[at + 1] as int;
      assert name.value == s[at + 2..next];
    }

    /** read_socks4_request: the user id is drained to its terminator, 256 bytes at most. */
    method ReadSocks4Request() returns (r: Option<Target>)
      requires Valid()
      modifies this`position
      ensures Valid()
      ensures r == match Parse4(old(Rest())) { case Some(p) => Some(p.target) case None => None }
      ensures r.Some? ==> position == old(position) + Parse4(old(Rest())).value.consumed
    {
      ghost var s := Rest();
      var fixed := RecvExact(7);
      if fixed.None? {
        return None;
      }
      var b := fixed.value;
      if b[0] != CONNECT {
        return None;
      }
      assert Rest() == s[7..] && b == s[..7] && b[3..7] == s[3..7];
      var drained := DrainUserId(s);
      if !drained {
        return None;
      }
      r := Some(Target(IPv4(b[3..7]), PortOf(b[1], b[2])));
    }

    /** Reads up to the terminator of the user id, which starts at s[7]; at most 256 bytes. */
    method DrainUserId(ghost s: seq<Byte>) returns (ok: bool)
      requires Valid() && |s| >= 7 && Rest() == s[7..]
      modifies this`position
      ensures Valid()
      ensures ok <==> UserIdLength(s, 7, MAX_USERID).Some?
      ensures ok ==> position == old(position) + UserIdLength(s, 7, MAX_USERID).value + 1
    {
      for i := 0 to 256
        invariant Valid() && i <= 255 && 7 + i <= |s| && Rest() == s[7 + i..] && position == old(position) + i
        invariant 0 !in s[7..7 + i]
      {
        var c := RecvExact(1);
        if c.None? {
          NoUserId(s, 7, MAX_USERID, i);
          return false;
        }
        assert c.value[0] == s[7 + i] && s[7..7 + i + 1] == s[7..7 + i] + [s[7 + i]];
        if c.value[0] == 0 {
          UserIdAt(s, 7, MAX_USERID, i);
          return true;
        }
        if i == 255 {
          NoUserId(s, 7, MAX_USERID, 256);
          return false;
        }
      }
      ok := true;
    }
  }

  lemma UserIdAt(s: seq<Byte>, at: nat, limit: nat, n: nat)
    requires at + n < |s| && 0 !in s[at..at + n] && s[at + n] == 0 && n <= limit
    ensures UserIdLength(s, at, limit) == Some(n)
  {
    assert forall i :: at <= i < at + n ==> s[i] in s[at..at + n];
    UserIdLengthOf(s, at, limit, n);
  }

  lemma NoUserId(s: seq<Byte>, at: nat, limit: nat, n: nat)
    requires at + n <= |s| && 0 !in s[at..at + n] && (at + n == |s| || n > limit)
    ensures UserIdLength(s, at, limit).None?
  {
    if UserIdLength(s, at, limit).Some? {
      UserIdLengthMeaning(s, at, limit);
    }
  }

  datatype Outcome = Closed | Pumped(target: Target)

  /** What has been sent before the pump or the close: the method reply of SOCKS5, then, if that went
      out whole, the reply to the request. */
  function Replies(before: seq<Byte>, version: Byte, granted: bool, status: Byte): seq<Byte> {
    before + (if version == VERSION5 then [VERSION5, 0] else []) + ReplyBytes(version, granted, status)
  }

  /** What is sent to a client whose request is not understood, or breaks off: with SOCKS5 the method reply,
      if the offer was complete; otherwise nothing. */
  function Refusal(s: seq<Byte>): seq<Byte> {
    if s != [] && s[0] == VERSION5 then MethodReply(s[1..]) else []
  }

  /** The method reply, if the version has one, goes out whole. */
  predicate MethodReplyFits(before: seq<Byte>, version: Byte, capacity: nat) {
    version == VERSION5 ==> |before| + 2 <= capacity
  }

  /** What a connection comes to that sends s: how far it is read, if the request is complete, and what is sent
      to it after what was sent before. */
  predicate Served(s: seq<Byte>, before: seq<Byte>, capacity: nat, allowSocks4: bool, permitted: Target -> bool, opens: bool,
                   outcome: Outcome, consumed: int, sent: seq<Byte>)
  {
    var p := Parse(s, allowSocks4);
    if p.None? || !MethodReplyFits(before, s[0], capacity) then
      outcome == Closed && sent == Fitting(before + Refusal(s), capacity)
    else
      var granted := permitted(p.value.target) && opens;
      var status: Byte := if granted then 0 else if permitted(p.value.target) then 1 else 2;
      && outcome == (if granted then Pumped(p.value.target) else Closed)
      && consumed == p.value.consumed
      && sent == Fitting(Replies(before, s[0], granted, status), capacity)
  }

  /** serve_one_connection up to the pump. permitted is the allow filter's answer for a target, opens
      whether the session can open a channel to it. The connection is handed to the pump exactly when
      the request is complete, its method reply goes out, it is permitted and the channel opens; the
      stream then stands at the byte after the request. Otherwise it is closed. */
  method ServeOneConnection(socket: Socket, allowSocks4: bool, permitted: Target -> bool, opens: bool)
    returns (outcome: Outcome)
    requires socket.Valid()
    modifies socket
    ensures outcome == Closed <==> socket.closed
    ensures socket.position <= |socket.stream| && |socket.sent| <= socket.capacity
    ensures Served(old(socket.Rest()), old(socket.sent), socket.capacity, allowSocks4, permitted, opens,
                   outcome, socket.position - old(socket.position), socket.sent)
  {
    ghost var s := socket.Rest();
    var first := socket.RecvExact(1);
    if first.None? {
      socket.Close();
      return Closed;
    }
    assert socket.Rest() == s[1..] && first.value[0] == s[0];
    var version := first.value[0];
    if (version == VERSION4 && !allowSocks4) || (version != VERSION4 && version != VERSION5) {
      socket.Close();
      return Closed;
    }
    var target;
    if version == VERSION4 {
      target := socket.ReadSocks4Request();
    } else {
      target := socket.ReadSocks5Request();
    }
    if target.None? {
      socket.Close();
      return Closed;
    }
    ghost var before := old(socket.sent) + (if version == VERSION5 then [VERSION5, 0] else []);
    assert socket.sent == before;
    if !permitted(target.value) {
      Reply(socket, version, false, 0x02);
      socket.Close();
      return Closed;
    }
    if !opens {
      Reply(socket, version, false, 0x01);
      socket.Close();
      return Closed;
    }
    Reply(socket, version, true, 0x00);
    outcome := Pumped(target.value);
  }

  /** serve_one_connection to its end: the pump takes over the connection where the request ended. The turns say
      what both ends do from then on, and so for how long the pump runs and what each end is given. It runs dry if
      nobody stops it and both ends get their turns; if they also accept all they are offered, the target has got
      exactly the client's bytes after the request, and the client exactly the target's. */
  method ServeAndPump(socket: Socket, allowSocks4: bool, permitted: Target -> bool, opens: bool, channel: Pump.Endpoint,
                      bufferSize: nat, stats: Pump.ForwardStats, turns: seq<Pump.Turn>)
    returns (outcome: Outcome, client: Pump.Endpoint, drained: bool, ran: nat)
    requires socket.Valid() && channel.Valid() && !channel.closed && !channel.shut
    modifies socket, channel, stats
    ensures Served(old(socket.Rest()), old(socket.sent), socket.capacity, allowSocks4, permitted, opens,
                   outcome, socket.position - old(socket.position), socket.sent)
    ensures outcome == Closed ==> socket.closed && unchanged(channel) && unchanged(stats) && !drained && ran == 0
    ensures outcome.Pumped? ==>
      && socket.position <= |socket.stream| && client.incoming == socket.Rest()
      && ran <= |turns| && Tunnelled(client, channel, old(channel.position), old(channel.given), bufferSize, turns, ran)
      && (drained <==> client.shut && channel.shut)
      && socket.closed == channel.closed == (drained || ran < |turns|)
      && stats.bytesOut == old(stats.bytesOut) + channel.position - old(channel.position)
      && stats.bytesIn == old(stats.bytesIn) + client.position
      && (EndsByItself(turns, bufferSize, |channel.incoming| - old(channel.position), |client.incoming|) ==> drained)
    ensures outcome.Pumped? && drained && AllAccepted(turns, ran, bufferSize) && bufferSize >= 1 && !Pump.ReceiveFails(turns, ran) ==>
      && channel.given == old(channel.given) + client.incoming
      && client.given == channel.incoming[old(channel.position)..]
  {
    outcome := ServeOneConnection(socket, allowSocks4, permitted, opens);
    client := new Pump.Endpoint(if outcome == Closed then [] else socket.Rest());
    drained, ran := false, 0;
    if outcome != Closed {
      drained, ran := Tunnel(client, channel, bufferSize, stats, turns);
      if client.closed {
        socket.Close();
      }
    }
  }

  /** The pump between a client, from the first of its bytes that is left, and the target's channel. */
  method Tunnel(client: Pump.Endpoint, channel: Pump.Endpoint, bufferSize: nat, stats: Pump.ForwardStats, turns: seq<Pump.Turn>)
    returns (drained: bool, ran: nat)
    requires client != channel && client.Valid() && client.position == 0 && client.given == []
    requires channel.Valid() && !channel.closed && !channel.shut && !client.closed && !client.shut
    modifies client, channel, stats
    ensures ran <= |turns| && Tunnelled(client, channel, old(channel.position), old(channel.given), bufferSize, turns, ran)
    ensures drained <==> client.shut && channel.shut
    ensures client.closed == channel.closed == (drained || ran < |turns|)
    ensures stats.bytesOut == old(stats.bytesOut) + channel.position - old(channel.position)
    ensures stats.bytesIn == old(stats.bytesIn) + client.position
    ensures EndsByItself(turns, bufferSize, |channel.incoming| - old(channel.position), |client.incoming|) ==> drained
    ensures drained && AllAccepted(turns, ran, bufferSize) && bufferSize >= 1 && !Pump.ReceiveFails(turns, ran) ==>
      && channel.given == old(channel.given) + client.incoming
      && client.given == channel.incoming[old(channel.position)..]
  {
    ghost var start, base := channel.position, channel.given;
    var ended;
    ended, ran := Pump.Run(channel, client, bufferSize, stats, turns);
    drained := ended == Pump.Drained;
    if AllAccepted(turns, ran, bufferSize) {
      Pump.RoomForAll(Pump.Out, turns, ran, bufferSize, channel.incoming, Pump.Flow(start, [], false));
      Pump.RoomForAll(Pump.In, turns, ran, bufferSize, client.incoming, Pump.Flow(0, base, false));
    }
  }

  predicate AllAccepted(turns: seq<Pump.Turn>, ran: nat, size: nat)
    requires ran <= |turns|
  {
    forall i :: 0 <= i < ran ==> turns[i].sent >= size && turns[i].written >= size
  }

  /** Nobody stops the pump, and both ends get their turns. */
  predicate EndsByItself(turns: seq<Pump.Turn>, size: nat, out: nat, inward: nat) {
    size >= 1 && (forall i :: 0 <= i < |turns| ==> !turns[i].stop) && Pump.Fair(turns, out, inward)
  }

  /** The pump has run for just the turns it should, and both directions are where these take them, from the
      beginning of the client's bytes. */
  predicate Tunnelled(client: Pump.Endpoint, channel: Pump.Endpoint, start: nat, base: seq<Byte>, size: nat,
                      turns: seq<Pump.Turn>, ran: nat)
    requires ran <= |turns|
    reads client, channel
  {
    && start <= |channel.incoming|
    && Pump.Lasts(turns, ran, size, channel.incoming, Pump.Flow(start, [], false), client.incoming, Pump.Flow(0, base, false))
    && Pump.Flow(channel.position, client.given, client.shut)
       == Pump.After(Pump.Out, turns, ran, size, channel.incoming, Pump.Flow(start, [], false))
    && Pump.Flow(client.position, channel.given, channel.shut)
       == Pump.After(Pump.In, turns, ran, size, client.incoming, Pump.Flow(0, base, false))
  }

  /** reply_socks4 and reply_socks5; whether the reply goes out whole is not looked at. */
  method Reply(socket: Socket, version: Byte, granted: bool, status: Byte)
    requires socket.Valid()
    modifies socket`sent
    ensures socket.Valid()
    ensures socket.sent == Fitting(old(socket.sent) + ReplyBytes(version, granted, status), socket.capacity)
  {
    var _ := socket.SendExact(ReplyBytes(version, granted, status));
  }

  /** The reply to the methods offered: "no authentication" if it is among them, otherwise none of them. */
  function MethodReply(s: seq<Byte>): seq<Byte> {
    if |s| < 1 || |s| < 1 + s[0] as int then [] else [VERSION5, if 0 in s[1..1 + s[0] as int] then 0 else 0xff]
  }

  /** As much of data as a connection of the given capacity takes. */
  function Fitting(data: seq<Byte>, capacity: nat): seq<Byte> {
    data[..Min(|data|, capacity)]
  }

  function ReplyBytes(version: Byte, granted: bool, status: Byte): seq<Byte> {
    if version == VERSION4 then [0, if granted then 0x5a else 0x5b, 0, 0, 0, 0, 0, 0]
    else [VERSION5, status, 0, 1, 0, 0, 0, 0, 0, 0]
  }
}
