/** What a client of the SOCKS proxy writes and reads, byte for byte, as RFC 1928 (sections 3 to 6) and the SOCKS4
    memo have it. */
module SocksLaws {
  import opened Basics
  import opened Socks

  // ---- what it writes ----

  function Digits(high: Byte, low: Byte): nat {
    256 * high as nat + low as nat
  }

  /** A SOCKS5 greeting and CONNECT request up to the address: "no authentication" is among the methods. */
  function Opening5(methods: seq<Byte>, reserved: Byte, kind: Byte): seq<Byte>
    requires |methods| <= 255
  {
    [5, |methods| as Byte] + methods + [5, 1, reserved, kind]
  }

  lemma PortBytesAre(high: Byte, low: Byte)
    ensures Digits(high, low) < 0x1_0000 && PortBytes(Digits(high, low)) == [high, low]
  {
  }

  /** Whatever the address, the request is taken as it is written, to its last byte. */
  lemma Written5(methods: seq<Byte>, reserved: Byte, kind: Byte, body: seq<Byte>, high: Byte, low: Byte, host: Host,
                 rest: seq<Byte>, allowSocks4: bool)
    requires |methods| <= 255 && 0 in methods && WellFormed(Target(host, 0)) && HostBytes(host) == [kind] + body
    ensures Parse(Opening5(methods, reserved, kind) + body + [high, low] + rest, allowSocks4)
         == Some(Parsed(Target(host, Digits(high, low)), 6 + |methods| + |body| + 2))
  {
    var t := Target(host, Digits(high, low));
    PortBytesAre(high, low);
    var s := Opening5(methods, reserved, kind) + body + [high, low] + rest;
    assert s[1..] == Encode5(methods, reserved, t) + rest;
    Parse5Inverts(methods, reserved, t, rest);
  }

  lemma Written5IPv4(methods: seq<Byte>, reserved: Byte, address: seq<Byte>, high: Byte, low: Byte, rest: seq<Byte>, allowSocks4: bool)
    requires |methods| <= 255 && 0 in methods && |address| == 4
    ensures Parse(Opening5(methods, reserved, 1) + address + [high, low] + rest, allowSocks4)
         == Some(Parsed(Target(IPv4(address), Digits(high, low)), 12 + |methods|))
  {
    Written5(methods, reserved, 1, address, high, low, IPv4(address), rest, allowSocks4);
  }

  lemma Written5Domain(methods: seq<Byte>, reserved: Byte, name: seq<Byte>, high: Byte, low: Byte, rest: seq<Byte>, allowSocks4: bool)
    requires |methods| <= 255 && 0 in methods && 1 <= |name| <= 255
    ensures Parse(Opening5(methods, reserved, 3) + ([|name| as Byte] + name) + [high, low] + rest, allowSocks4)
         == Some(Parsed(Target(Domain(name), Digits(high, low)), 9 + |methods| + |name|))
  {
    assert HostBytes(Domain(name)) == [3] + ([|name| as Byte] + name);
    Written5(methods, reserved, 3, [|name| as Byte] + name, high, low, Domain(name), rest, allowSocks4);
  }

  lemma Written5IPv6(methods: seq<Byte>, reserved: Byte, address: seq<Byte>, high: Byte, low: Byte, rest: seq<Byte>, allowSocks4: bool)
    requires |methods| <= 255 && 0 in methods && |address| == 16
    ensures Parse(Opening5(methods, reserved, 4) + address + [high, low] + rest, allowSocks4)
         == Some(Parsed(Target(IPv6(address), Digits(high, low)), 24 + |methods|))
  {
    Written5(methods, reserved, 4, address, high, low, IPv6(address), rest, allowSocks4);
  }

  /** A SOCKS4 CONNECT request is taken if SOCKS4 is allowed and its user id has at most 255 bytes. */
  lemma Written4(high: Byte, low: Byte, address: seq<Byte>, userid: seq<Byte>, rest: seq<Byte>, allowSocks4: bool)
    requires |address| == 4 && 0 !in userid
    ensures Parse([4, 1, high, low] + address + userid + [0] + rest, allowSocks4) ==
      if allowSocks4 && |userid| <= 255 then Some(Parsed(Target(IPv4(address), Digits(high, low)), 9 + |userid|)) else None
  {
    PortBytesAre(high, low);
    var s := [4, 1, high, low] + address + userid + [0] + rest;
    assert s[1..] == Encode4(address, Digits(high, low), userid) + rest;
    Parse4Inverts(address, Digits(high, low), userid, rest);
  }

  /** Nothing else than a 4 or a 5 begins a request. */
  lemma OtherVersion(s: seq<Byte>, allowSocks4: bool)
    requires s == [] || (s[0] != 4 && s[0] != 5)
    ensures Parse(s, allowSocks4).None?
  {
  }

  // ---- what it reads ----

  datatype Heard = Granted | Refused(code: Byte) | Nothing

  /** Eight bytes: 0, then 90 for granted or 91 for rejected. */
  function Hears4(reply: seq<Byte>): Heard {
    if |reply| != 8 || reply[0] != 0 then Nothing
    else if reply[1] == 90 then Granted
    else if reply[1] == 91 then Refused(91)
    else Nothing
  }

  /** The choice of "no authentication" in two bytes, then ten bytes: 5, the status, 0, and an IPv4 address and port. */
  function Hears5(reply: seq<Byte>): Heard {
    if |reply| != 12 || reply[0] != 5 || reply[1] != 0 || reply[2] != 5 || reply[4] != 0 || reply[5] != 1 then Nothing
    else if reply[3] == 0 then Granted else Refused(reply[3])
  }

  /** What has been sent since. */
  function Since(sent: seq<Byte>, before: seq<Byte>): seq<Byte> {
    if before <= sent then sent[|before|..] else []
  }

  lemma SinceIs(before: seq<Byte>, more: seq<Byte>, capacity: nat)
    requires |before| + |more| <= capacity
    ensures Fitting(before + more, capacity) == before + more && Since(before + more, before) == more
  {
  }

  lemma Reply4(before: seq<Byte>, granted: bool, status: Byte, capacity: nat)
    requires |before| + 8 <= capacity
    ensures var sent := Fitting(Replies(before, 4, granted, status), capacity);
      before <= sent && Hears4(Since(sent, before)) == if granted then Granted else Refused(91)
  {
    var more: seq<Byte> := [0, if granted then 90 else 91, 0, 0, 0, 0, 0, 0];
    assert Replies(before, 4, granted, status) == before + more;
    SinceIs(before, more, capacity);
  }

  /** A SOCKS4 client that takes the reply hears "granted" exactly when it is connected to its target, and
      "rejected" otherwise. */
  lemma Heard4(s: seq<Byte>, before: seq<Byte>, capacity: nat, permitted: Target -> bool, opens: bool,
               outcome: Outcome, consumed: int, sent: seq<Byte>)
    requires Served(s, before, capacity, true, permitted, opens, outcome, consumed, sent)
    requires s != [] && s[0] == 4 && Parse(s, true).Some? && |before| + 8 <= capacity
    ensures var target := Parse(s, true).value.target;
      && before <= sent
      && outcome == (if permitted(target) && opens then Pumped(target) else Closed)
      && Hears4(Since(sent, before)) == if outcome.Pumped? then Granted else Refused(91)
  {
    Reply4(before, outcome.Pumped?, if outcome.Pumped? then 0 else if permitted(Parse(s, true).value.target) then 1 else 2, capacity);
  }

  /** The method reply and the reply with a status, as a client hears them. */
  lemma Reply5(before: seq<Byte>, granted: bool, status: Byte, capacity: nat)
    requires |before| + 12 <= capacity
    ensures var sent := Fitting(Replies(before, 5, granted, status), capacity);
      before <= sent && Hears5(Since(sent, before)) == if status == 0 then Granted else Refused(status)
  {
    var more: seq<Byte> := [5, 0] + [5, status, 0, 1, 0, 0, 0, 0, 0, 0];
    assert Replies(before, 5, granted, status) == before + more;
    SinceIs(before, more, capacity);
  }

  /** A SOCKS5 client likewise; the status is 2 for a target that is not permitted and 1 for a channel that does
      not open. */
  lemma Heard5(s: seq<Byte>, before: seq<Byte>, capacity: nat, allowSocks4: bool, permitted: Target -> bool, opens: bool,
               outcome: Outcome, consumed: int, sent: seq<Byte>)
    requires Served(s, before, capacity, allowSocks4, permitted, opens, outcome, consumed, sent)
    requires s != [] && s[0] == 5 && Parse(s, allowSocks4).Some? && |before| + 12 <= capacity
    ensures var target := Parse(s, allowSocks4).value.target;
      && before <= sent
      && outcome == (if permitted(target) && opens then Pumped(target) else Closed)
      && Hears5(Since(sent, before)) ==
         if outcome.Pumped? then Granted else if permitted(target) then Refused(1) else Refused(2)
  {
    var granted := outcome.Pumped?;
    var status: Byte := if granted then 0 else if permitted(Parse(s, allowSocks4).value.target) then 1 else 2;
    Reply5(before, granted, status, capacity);
  }

  /** Who is not understood is not connected, and hears at most which method was chosen: 0 if "no authentication"
      was offered, 255 if not. */
  lemma HeardNothing(s: seq<Byte>, before: seq<Byte>, capacity: nat, allowSocks4: bool, permitted: Target -> bool, opens: bool,
                     outcome: Outcome, consumed: int, sent: seq<Byte>)
    requires Served(s, before, capacity, allowSocks4, permitted, opens, outcome, consumed, sent)
    requires Parse(s, allowSocks4).None? && |before| + 2 <= capacity
    ensures outcome == Closed
    ensures sent == before + (
      if |s| < 2 || s[0] != 5 || |s| < 2 + s[1] as int then []
      else [5, if 0 in s[2..2 + s[1] as int] then 0 else 255])
  {
    if |s| >= 2 && |s| >= 2 + s[1] as int {
      assert s[1..][1..1 + s[1] as int] == s[2..2 + s[1] as int];
    }
  }
}
