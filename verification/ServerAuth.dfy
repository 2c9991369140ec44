/** Authentication on the server: the bridge's callbacks over a SimpleAuthHandler. */
module ServerAuth {
  import opened Basics

  type Secret = seq<bv8>

  datatype Entry = Entry(password: Option<Secret>, fingerprints: seq<string>, allowNone: bool)

  const EMPTY_ENTRY := Entry(None, [], false)

  /** State of a presented key: offered without a signature, or signed. */
  datatype KeyState = Offered | Valid | Wrong

  /** One authentication callback, with what the client presented. */
  datatype Attempt =
    | AskNone(user: string)
    | AskPassword(user: string, password: Secret)
    | AskKey(user: string, fingerprint: Option<string>, state: KeyState)
    | AskGssapi(user: string)

  datatype AuthResult = Success | Denied | Partial

  /** An attempt, and the handler's table and limit at the time. */
  datatype Event = Event(attempt: Attempt, entries: map<string, Entry>, maxAttempts: int)

  // ---- what may authenticate ----

  /** The client has shown what the table asks of this user. */
  predicate Proves(e: Event) {
    e.attempt.user in e.entries &&
    var entry := e.entries[e.attempt.user];
    match e.attempt
    case AskNone(_) => entry.allowNone
    case AskPassword(_, password) => entry.password == Some(password)
    case AskKey(_, fingerprint, state) => state == Valid && fingerprint.Some? && fingerprint.value in entry.fingerprints
    case AskGssapi(_) => false
  }

  /** The key would do, if it were signed. */
  predicate Acceptable(e: Event) {
    && e.attempt.AskKey? && e.attempt.state == Offered && e.attempt.fingerprint.Some?
    && e.attempt.user in e.entries && e.attempt.fingerprint.value in e.entries[e.attempt.user].fingerprints
  }

  /** Attempts that use up one of the user's tries. */
  predicate Counts(e: Event) {
    e.attempt.AskNone? || e.attempt.AskPassword? || (e.attempt.AskKey? && Proves(e))
  }

  function TriesOf(trace: seq<Event>, user: string): nat {
    if trace == [] then 0
    else
      TriesOf(trace[..|trace| - 1], user) +
      (if Counts(trace[|trace| - 1]) && trace[|trace| - 1].attempt.user == user then 1 else 0)
  }

  /** The i-th attempt authenticates: it proves its claim within the user's tries. */
  predicate Grants(trace: seq<Event>, i: nat)
    requires i < |trace|
  {
    Proves(trace[i]) && TriesOf(trace[..i], trace[i].attempt.user) < trace[i].maxAttempts
  }

  /** Of the attempts of one session, whose positions in the trace are mine, the last that authenticates. */
  ghost predicate LastGrant(trace: seq<Event>, mine: set<nat>, i: nat)
    requires i < |trace|
  {
    i in mine && Grants(trace, i) && forall j :: i < j < |trace| && j in mine ==> !Grants(trace, j)
  }

  /** A session is authenticated exactly when some attempt of its own has earned it, as the user of
      the last attempt that did. */
  ghost predicate Earned(authenticated: bool, user: string, trace: seq<Event>, mine: set<nat>) {
    && (forall i :: i in mine ==> i < |trace|)
    && (authenticated <==> exists i :: i in mine && i < |trace| && Grants(trace, i))
    && (authenticated ==> exists i :: 0 <= i < |trace| && LastGrant(trace, mine, i) && trace[i].attempt.user == user)
  }

  lemma {:induction false} TriesNeverDrop(trace: seq<Event>, i: nat, j: nat, user: string)
    requires i <= j <= |trace|
    ensures TriesOf(trace[..i], user) <= TriesOf(trace[..j], user)
    decreases j - i
  {
    if i < j {
      TriesNeverDrop(trace, i, j - 1, user);
      assert trace[..j][..j - 1] == trace[..j - 1];
    }
  }

  /** Once a user's tries have reached the limit, no later attempt authenticates that user,
      right password or not. */
  lemma LockedOut(trace: seq<Event>, i: nat, j: nat)
    requires i <= j < |trace|
    requires TriesOf(trace[..i], trace[j].attempt.user) >= trace[j].maxAttempts
    ensures !Grants(trace, j)
  {
    TriesNeverDrop(trace, i, j, trace[j].attempt.user);
  }

  /** Attempts of the user without a key: with or without a password, right or wrong, known or unknown user. */
  function GuessesOf(trace: seq<Event>, user: string): nat {
    if trace == [] then 0
    else
      var a := trace[|trace| - 1].attempt;
      GuessesOf(trace[..|trace| - 1], user) + (if a == AskNone(user) || (a.AskPassword? && a.user == user) then 1 else 0)
  }

  /** Attempts of the user with a key that is on the user's list and signed. */
  function SignaturesOf(trace: seq<Event>, user: string): nat {
    if trace == [] then 0
    else
      var e := trace[|trace| - 1];
      SignaturesOf(trace[..|trace| - 1], user) +
      (if e.attempt.AskKey? && e.attempt.user == user && e.attempt.state == KeyState.Valid && Listed(e.entries, user, e.attempt.fingerprint)
       then 1 else 0)
  }

  predicate Listed(entries: map<string, Entry>, user: string, fingerprint: Option<string>) {
    user in entries && fingerprint.Some? && fingerprint.value in entries[user].fingerprints
  }

  /** Those are what uses up a user's tries: every guess does, and of the keys only one that is listed and signed. */
  lemma {:induction false} TriesAre(trace: seq<Event>, user: string)
    ensures TriesOf(trace, user) == GuessesOf(trace, user) + SignaturesOf(trace, user)
  {
    if trace != [] {
      TriesAre(trace[..|trace| - 1], user);
    }
  }

  /** After as many guesses as the limit allows, the right password does not authenticate, nor anything else. */
  lemma GuessingLocksOut(trace: seq<Event>, j: nat)
    requires j < |trace| && GuessesOf(trace[..j], trace[j].attempt.user) >= trace[j].maxAttempts
    ensures !Grants(trace, j)
  {
    TriesAre(trace[..j], trace[j].attempt.user);
  }

  /** Every granting attempt uses up a try: a user is granted at most as often as the limit allows. */
  lemma {:induction false} GrantsWithinLimit(trace: seq<Event>, user: string, limit: nat)
    requires forall i :: 0 <= i < |trace| ==> trace[i].maxAttempts <= limit
    ensures GrantsTo(trace, user) <= Min(limit, TriesOf(trace, user))
  {
    if trace != [] {
      var front := trace[..|trace| - 1];
      GrantsWithinLimit(front, user, limit);
    }
  }

  function GrantsTo(trace: seq<Event>, user: string): nat {
    if trace == [] then 0
    else
      GrantsTo(trace[..|trace| - 1], user) +
      (if Grants(trace, |trace| - 1) && trace[|trace| - 1].attempt.user == user then 1 else 0)
  }

  /** Appending leaves earlier verdicts as they were. */
  lemma GrantsAppend(trace: seq<Event>, e: Event)
    ensures forall i :: 0 <= i < |trace| ==> Grants(trace + [e], i) == Grants(trace, i)
    ensures forall user ::
      TriesOf(trace + [e], user) == TriesOf(trace, user) + (if Counts(e) && e.attempt.user == user then 1 else 0)
  {
    assert forall i :: 0 <= i < |trace| ==> (trace + [e])[..i] == trace[..i];
    assert (trace + [e])[..|trace|] == trace;
  }

  /** What other sessions try leaves a session's standing as it was. */
  lemma EarnedAside(authenticated: bool, user: string, trace: seq<Event>, mine: set<nat>, e: Event)
    requires Earned(authenticated, user, trace, mine)
    ensures Earned(authenticated, user, trace + [e], mine)
  {
    GrantsAppend(trace, e);
    if authenticated {
      var i :| 0 <= i < |trace| && LastGrant(trace, mine, i) && trace[i].attempt.user == user;
      assert Grants(trace + [e], i);
      assert LastGrant(trace + [e], mine, i);
    }
  }

  /** One more attempt of the session's own. */
  lemma EarnedStep(authenticated: bool, user: string, authenticated': bool, user': string,
                   trace: seq<Event>, mine: set<nat>, e: Event)
    requires Earned(authenticated, user, trace, mine)
    requires if Grants(trace + [e], |trace|) then authenticated' && user' == e.attempt.user
             else authenticated' == authenticated && user' == user
    ensures Earned(authenticated', user', trace + [e], mine + {|trace|})
  {
    GrantsAppend(trace, e);
    if Grants(trace + [e], |trace|) {
      assert LastGrant(trace + [e], mine + {|trace|}, |trace|);
    } else if authenticated {
      var i :| 0 <= i < |trace| && LastGrant(trace, mine, i) && trace[i].attempt.user == user;
      assert Grants(trace + [e], i);
      assert LastGrant(trace + [e], mine + {|trace|}, i);
    }
  }

  // ---- the handler ----

  lemma XorIsZeroIff(diff: bv8, a: bv8, b: bv8)
    ensures diff | (a ^ b) == 0 <==> diff == 0 && a == b
  {
  }

  /** The comparison that always walks the shorter length. */
  method ConstantTimeEqual(a: Secret, b: Secret) returns (equal: bool)
    ensures equal <==> a == b
  {
    equal := |a| == |b|;
    var n := Min(|a|, |b|);
    var diff: bv8 := 0;
    for i := 0 to n
      invariant diff == 0 <==> a[..i] == b[..i]
    {
      XorIsZeroIff(diff, a[i], b[i]);
      assert a[..i + 1] == a[..i] + [a[i]] && b[..i + 1] == b[..i] + [b[i]];
      diff := diff | (a[i] ^ b[i]);
    }
    equal := equal && diff == 0;
    assert |a| == |b| ==> a[..n] == a && b[..n] == b;
  }

  class SimpleAuthHandler {
    var entries: map<string, Entry>
    var attempts: map<string, nat>
    var maxAttempts: int
    ghost var log: seq<Event>  // every attempt, of all the sessions that use the handler

    /** The counters are the tries used so far. */
    ghost predicate Valid()
      reads this
    {
      forall u :: TriesSoFar(u) == TriesOf(log, u)
    }

    constructor ()
      ensures Valid() && entries == map[] && attempts == map[] && maxAttempts == 6 && log == []
    {
      entries, attempts, maxAttempts, log := map[], map[], 6, [];
    }

    function TriesSoFar(user: string): nat
      reads this
    {
      if user in attempts then attempts[user] else 0
    }

    function EntryOf(user: string): Entry
      reads this
    {
      if user in entries then entries[user] else EMPTY_ENTRY
    }

    function Now(attempt: Attempt): Event
      reads this
    {
      Event(attempt, entries, maxAttempts)
    }

    method AllowPassword(user: string, password: Secret)
      modifies this`entries
      ensures entries == old(entries)[user := old(EntryOf(user)).(password := Some(password))]
      ensures entries[user] ==
        if user in old(entries) then old(entries[user]).(password := Some(password)) else Entry(Some(password), [], false)
    {
      entries := entries[user := EntryOf(user).(password := Some(password))];
    }

    /** A key whose fingerprint cannot be computed is dropped. */
    method AllowPublicKey(user: string, fingerprint: Option<string>)
      modifies this`entries
      ensures fingerprint.None? ==> entries == old(entries)
      ensures fingerprint.Some? ==>
        entries == old(entries)[user := old(EntryOf(user)).(fingerprints := old(EntryOf(user)).fingerprints + [fingerprint.value])]
      ensures fingerprint.Some? && user in old(entries) ==>
        entries[user] == old(entries[user]).(fingerprints := old(entries[user]).fingerprints + [fingerprint.value])
      ensures fingerprint.Some? && user !in old(entries) ==> entries[user] == Entry(None, [fingerprint.value], false)
    {
      if fingerprint.Some? {
        entries := entries[user := EntryOf(user).(fingerprints := EntryOf(user).fingerprints + [fingerprint.value])];
      }
    }

    method AllowNone(user: string)
      modifies this`entries
      ensures entries == old(entries)[user := old(EntryOf(user)).(allowNone := true)]
      ensures entries[user] ==
        if user in old(entries) then old(entries[user]).(allowNone := true) else Entry(None, [], true)
    {
      entries := entries[user := EntryOf(user).(allowNone := true)];
    }

    method RecordAttemptAndCheck(user: string) returns (ok: bool)
      modifies this`attempts
      ensures attempts == old(attempts)[user := old(TriesSoFar(user)) + 1]
      ensures ok <==> old(TriesSoFar(user)) < maxAttempts
    {
      attempts := attempts[user := TriesSoFar(user) + 1];
      ok := attempts[user] <= maxAttempts;
    }

    /** Notes an attempt before it is judged. */
    ghost method Note(attempt: Attempt)
      modifies this`log
      ensures log == old(log) + [old(Now(attempt))]
    {
      log := log + [Now(attempt)];
    }

    /** The counters after an attempt that has been noted and, if it counts, recorded. */
    lemma Recorded(before: seq<Event>, attempts': map<string, nat>, e: Event)
      requires forall u :: (if u in attempts' then attempts'[u] else 0) == TriesOf(before, u)
      requires log == before + [e]
      requires attempts == if Counts(e) then attempts'[e.attempt.user := TriesOf(before, e.attempt.user) + 1] else attempts'
      ensures Valid() && TriesOf(log[..|before|], e.attempt.user) == TriesOf(before, e.attempt.user)
    {
      GrantsAppend(before, e);
      assert log[..|before|] == before;
    }

    method OnAuthNone(user: string) returns (r: AuthResult)
      requires Valid()
      modifies this`attempts, this`log
      ensures Valid() && log == old(log) + [old(Now(AskNone(user)))]
      ensures r != Partial && (r == Success <==> Grants(log, |old(log)|))
      ensures attempts == old(attempts)[user := old(TriesSoFar(user)) + 1]
      ensures r == Success <==> old(TriesSoFar(user)) < maxAttempts && user in entries && entries[user].allowNone
    {
      ghost var before, tried := log, attempts;
      Note(AskNone(user));
      var ok := RecordAttemptAndCheck(user);
      Recorded(before, tried, log[|before|]);
      if !ok {
        return Denied;
      }
      r := if user in entries && entries[user].allowNone then Success else Denied;
    }

    method OnAuthPassword(user: string, password: Secret) returns (r: AuthResult)
      requires Valid()
      modifies this`attempts, this`log
      ensures Valid() && log == old(log) + [old(Now(AskPassword(user, password)))]
      ensures r != Partial && (r == Success <==> Grants(log, |old(log)|))
      ensures attempts == old(attempts)[user := old(TriesSoFar(user)) + 1]
      ensures r == Success <==>
        old(TriesSoFar(user)) < maxAttempts && user in entries && entries[user].password == Some(password)
    {
      ghost var before, tried := log, attempts;
      Note(AskPassword(user, password));
      var ok := RecordAttemptAndCheck(user);
      Recorded(before, tried, log[|before|]);
      if !ok {
        return Denied;
      }
      if user !in entries || entries[user].password.None? {
        return Denied;
      }
      var equal := ConstantTimeEqual(entries[user].password.value, password);
      r := if equal then Success else Denied;
    }

    /** Success for a key that is only offered says "sign with it". */
    method OnAuthPublicKey(user: string, fingerprint: Option<string>, state: KeyState) returns (r: AuthResult)
      requires Valid()
      modifies this`attempts, this`log
      ensures Valid() && log == old(log) + [old(Now(AskKey(user, fingerprint, state)))]
      ensures r != Partial && (r == Success <==> Grants(log, |old(log)|) || Acceptable(log[|old(log)|]))
      ensures attempts ==
        if state == KeyState.Valid && Listed(entries, user, fingerprint)
        then old(attempts)[user := old(TriesSoFar(user)) + 1] else old(attempts)
      ensures r == Success <==>
        && Listed(entries, user, fingerprint)
        && (state == Offered || (state == KeyState.Valid && old(TriesSoFar(user)) < maxAttempts))
    {
      ghost var before, tried := log, attempts;
      Note(AskKey(user, fingerprint, state));
      r := JudgeKey(user, fingerprint, state);
      Recorded(before, tried, log[|before|]);
    }

    method JudgeKey(user: string, fingerprint: Option<string>, state: KeyState) returns (r: AuthResult)
      modifies this`attempts
      ensures var e := Now(AskKey(user, fingerprint, state));
        && (r == Success <==> Acceptable(e) || (Proves(e) && old(TriesSoFar(user)) < maxAttempts))
        && attempts == (if Counts(e) then old(attempts)[user := old(TriesSoFar(user)) + 1] else old(attempts))
      ensures r != Partial
    {
      if state == KeyState.Wrong {
        return Denied;
      }
      if user !in entries || entries[user].fingerprints == [] {
        return Denied;
      }
      if fingerprint.None? {
        return Denied;
      }
      var allowed := entries[user].fingerprints;
      for i := 0 to |allowed|
        invariant forall j :: 0 <= j < i ==> allowed[j] != fingerprint.value
        invariant attempts == old(attempts)
      {
        if allowed[i] == fingerprint.value {
          if state == KeyState.Valid {
            var ok := RecordAttemptAndCheck(user);
            return if ok then Success else Denied;
          }
          return Success;
        }
      }
      r := Denied;
    }

    /** The hook of the base class, which this handler does not override. */
    method OnAuthGssapiMic(user: string) returns (r: AuthResult)
      requires Valid()
      modifies this`log
      ensures Valid() && log == old(log) + [old(Now(AskGssapi(user)))]
      ensures r == Denied && !Grants(log, |old(log)|)
    {
      ghost var before := log;
      Note(AskGssapi(user));
      Recorded(before, attempts, log[|before|]);
      r := Denied;
    }
  }

  // ---- the bridge ----

  /** One session's bridge; several may share a handler. */
  class HandlerBridge {
    const handler: SimpleAuthHandler
    var authenticated: bool  // of the server session
    var user: string         // of the server session
    ghost var mine: set<nat> // which attempts in the handler's log are this session's

    ghost predicate Valid()
      reads this, handler
    {
      handler.Valid() && Earned(authenticated, user, handler.log, mine)
    }

    constructor (handler: SimpleAuthHandler)
      requires handler.Valid()
      ensures Valid() && this.handler == handler && !authenticated && mine == {}
    {
      this.handler := handler;
      authenticated, user, mine := false, "", {};
    }

    method ApplyAuthResult(r: AuthResult, name: Option<string>, finalize: bool) returns (reply: AuthResult)
      modifies this`authenticated, this`user
      ensures reply == r
      ensures r == Success && finalize ==> authenticated && user == NameOf(name)
      ensures !(r == Success && finalize) ==> authenticated == old(authenticated) && user == old(user)
    {
      if r == Success {
        if finalize {
          authenticated, user := true, NameOf(name);
        }
        return Success;
      }
      reply := if r == Partial then Partial else Denied;
    }

    /** A null user name reads as the empty one. */
    static function NameOf(name: Option<string>): string {
      if name.Some? then name.value else ""
    }

    method AuthNoneCb(name: Option<string>) returns (reply: AuthResult)
      requires Valid()
      modifies this, handler`attempts, handler`log
      ensures Valid() && handler.log == old(handler.log) + [old(handler.Now(AskNone(NameOf(name))))]
      ensures mine == old(mine) + {|old(handler.log)|}
      ensures reply != Partial && (reply == Success <==> Grants(handler.log, |old(handler.log)|))
      ensures if reply == Success then authenticated && user == (if name.Some? then name.value else "")
              else authenticated == old(authenticated) && user == old(user)
    {
      ghost var before := handler.log;
      var r := handler.OnAuthNone(NameOf(name));
      reply := ApplyAuthResult(r, name, true);
      EarnedStep(old(authenticated), old(user), authenticated, user, before, mine, handler.log[|before|]);
      mine := mine + {|before|};
    }

    method AuthPasswordCb(name: Option<string>, password: Option<Secret>) returns (reply: AuthResult)
      requires Valid()
      modifies this, handler`attempts, handler`log
      ensures Valid()
      ensures handler.log == old(handler.log) +
        [old(handler.Now(AskPassword(NameOf(name), if password.Some? then password.value else [])))]
      ensures mine == old(mine) + {|old(handler.log)|}
      ensures reply != Partial && (reply == Success <==> Grants(handler.log, |old(handler.log)|))
      ensures if reply == Success then authenticated && user == (if name.Some? then name.value else "")
              else authenticated == old(authenticated) && user == old(user)
    {
      ghost var before := handler.log;
      var r := handler.OnAuthPassword(NameOf(name), if password.Some? then password.value else []);
      reply := ApplyAuthResult(r, name, true);
      EarnedStep(old(authenticated), old(user), authenticated, user, before, mine, handler.log[|before|]);
      mine := mine + {|before|};
    }

    /** Success for a key that is only offered authenticates nobody. */
    method AuthPubkeyCb(name: Option<string>, fingerprint: Option<string>, state: KeyState) returns (reply: AuthResult)
      requires Valid()
      modifies this, handler`attempts, handler`log
      ensures Valid() && handler.log == old(handler.log) + [old(handler.Now(AskKey(NameOf(name), fingerprint, state)))]
      ensures mine == old(mine) + {|old(handler.log)|}
      ensures reply == Success <==>
        Grants(handler.log, |old(handler.log)|) || Acceptable(handler.log[|old(handler.log)|])
      ensures if reply == Success && state == KeyState.Valid
              then authenticated && user == (if name.Some? then name.value else "")
              else authenticated == old(authenticated) && user == old(user)
    {
      ghost var before := handler.log;
      var r := handler.OnAuthPublicKey(NameOf(name), fingerprint, state);
      reply := ApplyAuthResult(r, name, state == KeyState.Valid);
      EarnedStep(old(authenticated), old(user), authenticated, user, before, mine, handler.log[|before|]);
      mine := mine + {|before|};
    }

    method AuthGssapiMicCb(name: Option<string>) returns (reply: AuthResult)
      requires Valid()
      modifies this, handler`log
      ensures Valid() && handler.log == old(handler.log) + [old(handler.Now(AskGssapi(NameOf(name))))]
      ensures mine == old(mine) + {|old(handler.log)|}
      ensures reply == Denied && authenticated == old(authenticated) && user == old(user)
    {
      ghost var before := handler.log;
      var r := handler.OnAuthGssapiMic(NameOf(name));
      reply := ApplyAuthResult(r, name, true);
      EarnedStep(old(authenticated), old(user), authenticated, user, before, mine, handler.log[|before|]);
      mine := mine + {|before|};
    }
  }

  /** A session that guesses as often as the limit allows is then turned away, whatever the password it asks with. */
  method GuessThenAsk(bridge: HandlerBridge, name: Option<string>, guesses: seq<Secret>, password: Secret)
    returns (reply: AuthResult)
    requires bridge.Valid() && |guesses| >= bridge.handler.maxAttempts
    modifies bridge, bridge.handler`attempts, bridge.handler`log
    ensures bridge.Valid() && reply == Denied
  {
    ghost var user := HandlerBridge.NameOf(name);
    for i := 0 to |guesses|
      invariant bridge.Valid() && GuessesOf(bridge.handler.log, user) >= i
    {
      ghost var before := bridge.handler.log;
      var _ := bridge.AuthPasswordCb(name, Some(guesses[i]));
      assert bridge.handler.log[..|before|] == before;
    }
    ghost var before := bridge.handler.log;
    reply := bridge.AuthPasswordCb(name, Some(password));
    assert bridge.handler.log[..|before|] == before;
    GuessingLocksOut(bridge.handler.log, |before|);
  }

  /** Two sessions share a handler: an attempt on one leaves the other's standing as it was. */
  method OtherSession(one: HandlerBridge, other: HandlerBridge, name: Option<string>, password: Option<Secret>)
    returns (reply: AuthResult)
    requires one != other && one.handler == other.handler && one.Valid() && other.Valid()
    modifies one, one.handler`attempts, one.handler`log
    ensures one.Valid() && other.Valid()
    ensures other.authenticated == old(other.authenticated) && other.user == old(other.user)
  {
    ghost var before := one.handler.log;
    reply := one.AuthPasswordCb(name, password);
    EarnedAside(other.authenticated, other.user, before, other.mine, one.handler.log[|before|]);
  }
}
