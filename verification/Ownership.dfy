/** Session and Channel objects over a shared SessionCore: who frees what, and in which order. */
module Ownership {
  import opened Basics

  /** What libssh is asked to make and to free, in the order in which it is asked. */
  datatype Event =
    | SessionMade(session: nat)
    | ChannelMade(channel: nat, of: nat)
    | ForeignMade(channel: nat)
    | ChannelFreed(channel: nat)
    | SessionFreed(session: nat)

  /** What exists: sessions, the channels derived from them, the channels libssh owns, and the next new handle. */
  datatype Heap = Heap(sessions: set<nat>, channels: map<nat, nat>, foreign: set<nat>, next: nat)

  function Happen(h: Heap, e: Event): Heap {
    match e
    case SessionMade(s) => h.(sessions := h.sessions + {s}, next := h.next + 1)
    case ChannelMade(c, s) => h.(channels := h.channels[c := s], next := h.next + 1)
    case ForeignMade(c) => h.(foreign := h.foreign + {c}, next := h.next + 1)
    case ChannelFreed(c) => h.(channels := h.channels - {c})
    case SessionFreed(s) => h.(sessions := h.sessions - {s})
  }

  /** libssh's rules: a handle is freed only while it exists, a session only after every channel derived from
      it, and a channel that libssh itself owns never. */
  predicate Allowed(h: Heap, e: Event) {
    match e
    case SessionMade(s) => s == h.next
    case ChannelMade(c, s) => c == h.next && s in h.sessions
    case ForeignMade(c) => c == h.next
    case ChannelFreed(c) => c in h.channels
    case SessionFreed(s) => s in h.sessions && forall c :: c in h.channels ==> h.channels[c] != s
  }

  function Replay(log: seq<Event>): Heap {
    if log == [] then Heap({}, map[], {}, 0) else Happen(Replay(log[..|log| - 1]), log[|log| - 1])
  }

  predicate Lawful(log: seq<Event>) {
    log == [] || (Lawful(log[..|log| - 1]) && Allowed(Replay(log[..|log| - 1]), log[|log| - 1]))
  }

  lemma LogOne(log: seq<Event>, e: Event)
    ensures Replay(log + [e]) == Happen(Replay(log), e)
    ensures Lawful(log + [e]) <==> Lawful(log) && Allowed(Replay(log), e)
  {
    assert (log + [e])[..|log|] == log;
  }

  /** What exists, in terms of the log: what has been made and not been freed. */
  ghost predicate Remains(log: seq<Event>, h: Heap) {
    && (forall s :: s in h.sessions <==> SessionMade(s) in log && SessionFreed(s) !in log)
    && (forall c, s :: c in h.channels && h.channels[c] == s <==> ChannelMade(c, s) in log && ChannelFreed(c) !in log)
    && (forall c :: c in h.foreign <==> ForeignMade(c) in log)
  }

  /** What is freed has been made, of a session only after all its channels. A handle is made once. */
  ghost predicate Ordered(log: seq<Event>, h: Heap) {
    && (forall e :: e in log ==> Handle(e) < h.next)
    && (forall c, s :: ChannelMade(c, s) in log ==> ForeignMade(c) !in log)
    && (forall c :: ChannelFreed(c) in log ==> exists s :: ChannelMade(c, s) in log)
    && (forall s :: SessionFreed(s) in log ==> SessionMade(s) in log)
    && (forall c, s :: ChannelMade(c, s) in log && SessionFreed(s) in log ==> ChannelFreed(c) in log)
  }

  ghost predicate Explains(log: seq<Event>, h: Heap) {
    Remains(log, h) && Ordered(log, h)
  }

  function Handle(e: Event): nat {
    match e
    case SessionMade(s) => s
    case ChannelMade(c, _) => c
    case ForeignMade(c) => c
    case ChannelFreed(c) => c
    case SessionFreed(s) => s
  }

  lemma {:induction false} LawfulIsExplained(log: seq<Event>)
    requires Lawful(log)
    ensures Explains(log, Replay(log))
  {
    if log != [] {
      var front, e := log[..|log| - 1], log[|log| - 1];
      LawfulIsExplained(front);
      ExplainOne(front, Replay(front), e);
      assert front + [e] == log;
    }
  }

  lemma ExplainOne(log: seq<Event>, h: Heap, e: Event)
    requires Explains(log, h) && Allowed(h, e)
    ensures Explains(log + [e], Happen(h, e))
  {
    RemainsOne(log, h, e);
    OrderedOne(log, h, e);
  }

  lemma RemainsOne(log: seq<Event>, h: Heap, e: Event)
    requires Explains(log, h) && Allowed(h, e)
    ensures Remains(log + [e], Happen(h, e))
  {
    assert forall x :: x in log + [e] <==> x in log || x == e;
  }

  lemma OrderedOne(log: seq<Event>, h: Heap, e: Event)
    requires Explains(log, h) && Allowed(h, e)
    ensures Ordered(log + [e], Happen(h, e))
  {
    assert forall x :: x in log + [e] <==> x in log || x == e;
    forall c | ChannelFreed(c) in log + [e] ensures exists s :: ChannelMade(c, s) in log + [e] {
      if ChannelFreed(c) in log {
        var s :| ChannelMade(c, s) in log;
        assert ChannelMade(c, s) in log + [e];
      } else {
        assert ChannelMade(c, h.channels[c]) in log;
        assert ChannelMade(c, h.channels[c]) in log + [e];
      }
    }
  }

  /** In a lawful log no handle is freed twice. */
  lemma FreedOnce(log: seq<Event>, i: nat, j: nat)
    requires Lawful(log) && i < j < |log| && Frees(log[i])
    ensures log[i] != log[j]
  {
    LawfulAt(log, j);
    NewToLog(log[..j], Replay(log[..j]), log[j]);
    InFront(log, i, j);
  }

  /** What is freed was made before, and is not libssh's own. */
  lemma FreedWasMade(log: seq<Event>, j: nat)
    requires Lawful(log) && j < |log|
    ensures log[j].ChannelFreed? ==>
      (exists s :: ChannelMade(log[j].channel, s) in log[..j]) && ForeignMade(log[j].channel) !in log
    ensures log[j].SessionFreed? ==> SessionMade(log[j].session) in log[..j]
  {
    LawfulAt(log, j);
    if log[j].ChannelFreed? {
      var c := log[j].channel;
      assert ChannelMade(c, Replay(log[..j]).channels[c]) in log[..j];
      assert ChannelMade(c, Replay(log[..j]).channels[c]) in log;
      LawfulAt(log, |log|);
      assert log[..|log|] == log;
    }
  }

  /** A session is freed after every channel derived from it. */
  lemma ChannelsGoFirst(log: seq<Event>, i: nat, j: nat)
    requires Lawful(log) && i < |log| && j < |log|
    requires log[i].ChannelMade? && log[j] == SessionFreed(log[i].of)
    ensures i < j && exists k :: i < k < j && log[k] == ChannelFreed(log[i].channel)
  {
    var c := log[i].channel;
    LawfulAt(log, i);
    NewToLog(log[..i], Replay(log[..i]), log[i]);
    InFront(log, j, i);
    LawfulAt(log, j);
    InFront(log, i, j);
    assert ChannelFreed(c) in log[..j];
    var k :| 0 <= k < j && log[k] == ChannelFreed(c);
    InFront(log, k, i);
  }

  lemma InFront(log: seq<Event>, k: nat, i: nat)
    requires k < |log| && i <= |log|
    ensures k < i ==> log[k] in log[..i]
  {
    if k < i {
      assert log[..i][k] == log[k];
    }
  }

  /** What is allowed has not happened, and what is made has not been freed. */
  lemma NewToLog(log: seq<Event>, h: Heap, e: Event)
    requires Explains(log, h) && Allowed(h, e)
    ensures e !in log
    ensures e.ChannelMade? ==> ChannelFreed(e.channel) !in log && SessionFreed(e.of) !in log
  {
    if e.ChannelFreed? {
      assert ChannelMade(e.channel, h.channels[e.channel]) in log;
    }
    assert e.ChannelMade? ==> forall x :: x in log ==> Handle(x) != e.channel;
  }

  predicate Frees(e: Event) {
    e.ChannelFreed? || e.SessionFreed?
  }

  /** Nothing is freed twice, no channel of libssh's is freed, and a session is freed only after
      every channel ever derived from it. */
  ghost predicate FreedProperly(log: seq<Event>) {
    && (forall i, j :: 0 <= i < j < |log| && Frees(log[i]) ==> log[i] != log[j])
    && (forall j :: 0 <= j < |log| && log[j].ChannelFreed? ==> ForeignMade(log[j].channel) !in log)
    && (forall i, j :: 0 <= i < |log| && 0 <= j < |log| && log[i].ChannelMade? && log[j] == SessionFreed(log[i].of) ==>
          i < j && ChannelFreed(log[i].channel) in log[i..j])
  }

  lemma LawfulIsProper(log: seq<Event>)
    requires Lawful(log)
    ensures FreedProperly(log)
  {
    forall i, j | 0 <= i < j < |log| && Frees(log[i]) ensures log[i] != log[j] {
      FreedOnce(log, i, j);
    }
    forall j | 0 <= j < |log| && log[j].ChannelFreed? ensures ForeignMade(log[j].channel) !in log {
      FreedWasMade(log, j);
    }
    forall i, j | 0 <= i < |log| && 0 <= j < |log| && log[i].ChannelMade? && log[j] == SessionFreed(log[i].of)
      ensures i < j && ChannelFreed(log[i].channel) in log[i..j]
    {
      ChannelsGoFirst(log, i, j);
      var k :| i < k < j && log[k] == ChannelFreed(log[i].channel);
      assert log[i..j][k - i] == log[k];
    }
  }

  /** Every beginning of a lawful log is lawful and explained, and the next event was allowed. */
  lemma {:induction false} LawfulAt(log: seq<Event>, j: nat)
    requires Lawful(log) && j <= |log|
    ensures Lawful(log[..j]) && Explains(log[..j], Replay(log[..j]))
    ensures j < |log| ==> Allowed(Replay(log[..j]), log[j])
    decreases |log|
  {
    if j == |log| {
      assert log[..j] == log;
      LawfulIsExplained(log);
    } else {
      var front := log[..|log| - 1];
      LawfulAt(front, j);
      assert front[..j] == log[..j];
    }
  }

  /** Nothing that was made for the program is left. */
  ghost predicate AllFreed(log: seq<Event>) {
    && (forall s :: SessionMade(s) in log ==> SessionFreed(s) in log)
    && (forall c, s :: ChannelMade(c, s) in log ==> ChannelFreed(c) in log)
  }

  /** libssh's side. Its preconditions are its rules, and the log records what it was asked for. */
  class Libssh {
    var sessions: set<nat>
    var channels: map<nat, nat>  // a channel and the session it belongs to
    var foreign: set<nat>        // channels libssh owns
    var next: nat
    ghost var log: seq<Event>

    ghost predicate Valid()
      reads this
    {
      && Lawful(log) && Replay(log) == Heap(sessions, channels, foreign, next)
      && (forall s :: s in sessions ==> s < next)
      && (forall c :: c in channels ==> c < next && channels[c] in sessions)
      && (forall c :: c in foreign ==> c < next && c !in channels)
    }

    constructor ()
      ensures Valid() && sessions == {} && channels == map[] && foreign == {} && log == []
    {
      sessions, channels, foreign, next, log := {}, map[], {}, 0, [];
    }

    /** ssh_new, or its failure when made is false. */
    method NewSession(made: bool) returns (s: Option<nat>)
      requires Valid()
      modifies this
      ensures s.Some? <==> made
      ensures Valid() && channels == old(channels) && foreign == old(foreign)
      ensures s.None? ==> sessions == old(sessions)
      ensures s.Some? ==> s.value !in old(sessions) && sessions == old(sessions) + {s.value}
      ensures s.Some? ==> s.value == old(next) && s.value !in channels && s.value !in foreign
      ensures log == old(log) + (if made then [SessionMade(old(next))] else [])
    {
      if !made {
        return None;
      }
      LogOne(log, SessionMade(next));
      log := log + [SessionMade(next)];
      s, sessions, next := Some(next), sessions + {next}, next + 1;
    }

    /** ssh_channel_new, or its failure when made is false. */
    method NewChannel(session: nat, made: bool) returns (c: Option<nat>)
      requires Valid() && session in sessions
      modifies this
      ensures c.Some? <==> made
      ensures Valid() && sessions == old(sessions) && foreign == old(foreign)
      ensures c.None? ==> channels == old(channels)
      ensures c.Some? ==> c.value == old(next) && c.value !in old(channels) && channels == old(channels)[c.value := session]
      ensures log == old(log) + (if made then [ChannelMade(old(next), session)] else [])
    {
      if !made {
        return None;
      }
      LogOne(log, ChannelMade(next, session));
      log := log + [ChannelMade(next, session)];
      c, channels, next := Some(next), channels[next := session], next + 1;
    }

    /** A channel that stays libssh's own, such as one handed to a callback. */
    method NewForeign() returns (c: nat)
      requires Valid()
      modifies this
      ensures Valid() && sessions == old(sessions) && channels == old(channels)
      ensures c == old(next) && foreign == old(foreign) + {c} && log == old(log) + [ForeignMade(c)]
    {
      LogOne(log, ForeignMade(next));
      log := log + [ForeignMade(next)];
      c, foreign, next := next, foreign + {next}, next + 1;
    }

    method ChannelFree(c: nat)
      requires Valid() && c in channels && c !in foreign && channels[c] in sessions
      modifies this`channels, this`log
      ensures Valid() && channels == old(channels) - {c} && log == old(log) + [ChannelFreed(c)]
    {
      LogOne(log, ChannelFreed(c));
      log := log + [ChannelFreed(c)];
      channels := channels - {c};
    }

    /** ssh_disconnect and ssh_free. */
    method SessionFree(s: nat)
      requires Valid() && s in sessions && forall c :: c in channels ==> channels[c] != s
      modifies this`sessions, this`log
      ensures Valid() && sessions == old(sessions) - {s} && log == old(log) + [SessionFreed(s)]
    {
      LogOne(log, SessionFreed(s));
      log := log + [SessionFreed(s)];
      sessions := sessions - {s};
    }
  }

  /** A Session holds its core; a Channel holds its native handle and its core. A core is named by
      the native session it wraps. */
  datatype Obj =
    | SessionObj(core: Option<nat>)
    | ChannelObj(native: Option<nat>, core: Option<nat>, owning: bool, isOpen: bool)

  ghost function Holders(objs: map<nat, Obj>, core: nat): set<nat> {
    set i | i in objs && objs[i].core == Some(core)
  }

  /** The use counts are those of the objects that hold a core; no count is 0. */
  ghost predicate Counted(objs: map<nat, Obj>, uses: map<nat, nat>) {
    && (forall s :: s in uses ==> uses[s] == |Holders(objs, s)| && uses[s] > 0)
    && (forall i :: i in objs && objs[i].core.Some? ==> objs[i].core.value in uses)
  }

  /** o refers to a channel that exists: its own, of the session its core wraps, or one of libssh's. */
  predicate Refers(o: Obj, channels: map<nat, nat>, foreign: set<nat>) {
    o.ChannelObj? && o.native.Some? ==>
      if o.owning then o.native.value in channels && o.core == Some(channels[o.native.value])
      else o.native.value in foreign
  }

  /** The channel o owns, if any. */
  function OwnChannel(o: Obj): Option<nat> {
    if o.ChannelObj? && o.owning then o.native else None
  }

  /** owner names, for every channel derived from a session, the one object that owns it. */
  ghost predicate Owned(objs: map<nat, Obj>, channels: map<nat, nat>, foreign: set<nat>, owner: map<nat, nat>) {
    && (forall i :: i in objs ==> Refers(objs[i], channels, foreign))
    && (forall i :: i in objs && OwnChannel(objs[i]).Some? ==>
          OwnChannel(objs[i]).value in owner && owner[OwnChannel(objs[i]).value] == i)
    && owner.Keys == channels.Keys
    && (forall c :: c in owner ==> owner[c] in objs && OwnChannel(objs[owner[c]]) == Some(c))
  }

  /** The owners after object i has given up its channel. */
  function OwnersWithout(owner: map<nat, nat>, o: Obj): map<nat, nat> {
    if OwnChannel(o).Some? then owner - {OwnChannel(o).value} else owner
  }

  /** The owners after what o owned has passed to object i. */
  function OwnersWith(owner: map<nat, nat>, o: Obj, i: nat): map<nat, nat> {
    if OwnChannel(o).Some? then owner[OwnChannel(o).value := i] else owner
  }

  function Taken(uses: map<nat, nat>, core: Option<nat>): map<nat, nat> {
    if core.None? then uses
    else uses[core.value := (if core.value in uses then uses[core.value] else 0) + 1]
  }

  function Dropped(uses: map<nat, nat>, core: Option<nat>): map<nat, nat> {
    if core.None? || core.value !in uses then uses
    else if uses[core.value] <= 1 then uses - {core.value}
    else uses[core.value := uses[core.value] - 1]
  }

  lemma TakenKeys(uses: map<nat, nat>, core: Option<nat>)
    requires core.Some? ==> core.value in uses
    ensures Taken(uses, core).Keys == uses.Keys
  {
  }

  lemma HoldersAdd(objs: map<nat, Obj>, i: nat, o: Obj, s: nat)
    requires i !in objs
    ensures Holders(objs[i := o], s) == Holders(objs, s) + (if o.core == Some(s) then {i} else {})
  {
  }

  /** Object i is gone, or has let go of its core. */
  ghost predicate LetsGo(objs: map<nat, Obj>, objs': map<nat, Obj>, i: nat) {
    && i in objs
    && (objs' == objs - {i} || (i in objs' && objs' == objs[i := objs'[i]] && objs'[i].core == None))
  }

  lemma HoldersDrop(objs: map<nat, Obj>, objs': map<nat, Obj>, i: nat, s: nat)
    requires LetsGo(objs, objs', i)
    ensures Holders(objs', s) == Holders(objs, s) - {i}
  {
  }

  /** The core of one object moves to another, which held none. */
  ghost predicate HandsOver(objs: map<nat, Obj>, objs': map<nat, Obj>, from: nat, to: nat) {
    && from in objs && from in objs' && to in objs' && from != to
    && (to in objs ==> objs[to].core == None)
    && objs' == objs[from := objs'[from]][to := objs'[to]]
    && objs'[to].core == objs[from].core && objs'[from].core == None
  }

  lemma HoldersMove(objs: map<nat, Obj>, objs': map<nat, Obj>, from: nat, to: nat, s: nat)
    requires HandsOver(objs, objs', from, to)
    ensures Holders(objs', s) ==
      if objs[from].core == Some(s) then (Holders(objs, s) - {from}) + {to} else Holders(objs, s)
    ensures objs[from].core == Some(s) ==> from in Holders(objs, s) && to !in Holders(objs, s)
  {
  }

  lemma CountedAdd(objs: map<nat, Obj>, uses: map<nat, nat>, i: nat, o: Obj)
    requires Counted(objs, uses) && i !in objs
    ensures Counted(objs[i := o], Taken(uses, o.core))
  {
    var objs', uses' := objs[i := o], Taken(uses, o.core);
    forall s | s in uses' ensures uses'[s] == |Holders(objs', s)| && uses'[s] > 0 {
      HoldersAdd(objs, i, o, s);
      if s !in uses {
        NobodyHolds(objs, uses, s);
      }
    }
  }

  lemma NobodyHolds(objs: map<nat, Obj>, uses: map<nat, nat>, s: nat)
    requires Counted(objs, uses) && s !in uses
    ensures Holders(objs, s) == {}
  {
  }

  /** The count of the core that object i held is one less; the others are what they were. */
  lemma CountAfterDrop(objs: map<nat, Obj>, objs': map<nat, Obj>, uses: map<nat, nat>, i: nat, s: nat)
    requires Counted(objs, uses) && LetsGo(objs, objs', i) && s in uses
    ensures |Holders(objs', s)| == uses[s] - (if objs[i].core == Some(s) then 1 else 0)
  {
    HoldersDrop(objs, objs', i, s);
    assert objs[i].core == Some(s) <==> i in Holders(objs, s);
  }

  /** Whoever else holds a core keeps it in use. */
  lemma StillHeld(objs: map<nat, Obj>, uses: map<nat, nat>, i: nat, j: nat, s: nat)
    requires Counted(objs, uses) && i in objs && j in objs && i != j && objs[j].core == Some(s)
    ensures s in uses && (objs[i].core == Some(s) ==> uses[s] >= 2)
  {
    if objs[i].core == Some(s) {
      TwoHolders(Holders(objs, s), i, j);
    }
  }

  lemma CountedDrop(objs: map<nat, Obj>, objs': map<nat, Obj>, uses: map<nat, nat>, i: nat)
    requires Counted(objs, uses) && LetsGo(objs, objs', i)
    ensures Counted(objs', Dropped(uses, objs[i].core))
  {
    var uses' := Dropped(uses, objs[i].core);
    forall s | s in uses' ensures uses'[s] == |Holders(objs', s)| && uses'[s] > 0 {
      CountAfterDrop(objs, objs', uses, i, s);
    }
    forall j | j in objs' && objs'[j].core.Some? ensures objs'[j].core.value in uses' {
      StillHeld(objs, uses, i, j, objs'[j].core.value);
    }
  }

  lemma TwoHolders(holders: set<nat>, i: nat, j: nat)
    requires i in holders && j in holders && i != j
    ensures |holders| >= 2
  {
    assert |holders - {i}| == |holders| - 1 && j in holders - {i};
  }

  lemma CountedMove(objs: map<nat, Obj>, objs': map<nat, Obj>, uses: map<nat, nat>, from: nat, to: nat)
    requires Counted(objs, uses) && HandsOver(objs, objs', from, to)
    ensures Counted(objs', uses)
  {
    forall s | s in uses ensures uses[s] == |Holders(objs', s)| && uses[s] > 0 {
      HoldersMove(objs, objs', from, to, s);
    }
    forall j | j in objs' && objs'[j].core.Some? ensures objs'[j].core.value in uses {
      assert objs'[j].core == objs[if j == to then from else j].core;
    }
  }

  /** Whoever owns a channel holds its session: a session nobody holds has no channels left. */
  lemma NoHolderNoChannel(objs: map<nat, Obj>, uses: map<nat, nat>, channels: map<nat, nat>, foreign: set<nat>,
                          owner: map<nat, nat>, c: nat)
    requires Counted(objs, uses) && Owned(objs, channels, foreign, owner) && c in channels
    ensures channels[c] in uses
  {
    assert Refers(objs[owner[c]], channels, foreign);
  }

  /** A new object that owns no channel of its own. */
  lemma OwnedAdd(objs: map<nat, Obj>, channels: map<nat, nat>, foreign: set<nat>, foreign': set<nat>,
                 owner: map<nat, nat>, i: nat, o: Obj)
    requires Owned(objs, channels, foreign, owner) && i !in objs && foreign <= foreign'
    requires Refers(o, channels, foreign') && OwnChannel(o) == None
    ensures Owned(objs[i := o], channels, foreign', owner)
  {
    forall j | j in objs ensures Refers(objs[j], channels, foreign') {
      assert Refers(objs[j], channels, foreign);
    }
  }

  /** A new object with a new channel. */
  lemma OwnedAddOwner(objs: map<nat, Obj>, channels: map<nat, nat>, foreign: set<nat>, owner: map<nat, nat>,
                      i: nat, o: Obj, c: nat, session: nat)
    requires Owned(objs, channels, foreign, owner) && i !in objs
    requires OwnChannel(o) == Some(c) && o.core == Some(session) && c !in channels
    ensures Owned(objs[i := o], channels[c := session], foreign, owner[c := i])
  {
    forall j | j in objs ensures Refers(objs[j], channels[c := session], foreign) && OwnChannel(objs[j]) != Some(c) {
      assert Refers(objs[j], channels, foreign);
    }
  }

  /** Object i no longer refers to anything, and the channel it owned, if any, is gone. */
  lemma OwnedDrop(objs: map<nat, Obj>, objs': map<nat, Obj>, channels: map<nat, nat>, foreign: set<nat>,
                  owner: map<nat, nat>, i: nat)
    requires Owned(objs, channels, foreign, owner) && i in objs
    requires objs' == objs - {i} ||
      (i in objs' && objs' == objs[i := objs'[i]] && (objs'[i].ChannelObj? ==> objs'[i].native == None))
    ensures Owned(objs', ChannelsWithout(channels, objs[i]), foreign, OwnersWithout(owner, objs[i]))
  {
    forall j | j in objs' ensures Refers(objs'[j], ChannelsWithout(channels, objs[i]), foreign) {
      if j != i {
        assert Refers(objs[j], channels, foreign);
      }
    }
  }

  /** What one object referred to, another that referred to nothing now does. */
  lemma OwnedMove(objs: map<nat, Obj>, objs': map<nat, Obj>, channels: map<nat, nat>, foreign: set<nat>,
                  owner: map<nat, nat>, from: nat, to: nat)
    requires Owned(objs, channels, foreign, owner) && from in objs && from in objs' && to in objs' && from != to
    requires to in objs && objs[to].ChannelObj? ==> objs[to].native == None
    requires objs' == objs[from := objs'[from]][to := objs'[to]]
    requires objs'[from].ChannelObj? ==> objs'[from].native == None
    requires objs'[to] == objs[from]
    ensures Owned(objs', channels, foreign, OwnersWith(owner, objs[from], to))
  {
    forall j | j in objs' ensures Refers(objs'[j], channels, foreign) {
      if j != from {
        assert Refers(objs[if j == to then from else j], channels, foreign);
      }
    }
  }

  lemma AddThenRemove<V>(m: map<nat, V>, k: nat, v: V)
    requires k !in m
    ensures m[k := v] - {k} == m
  {
  }

  /** What an object looks like after it has been moved from. */
  function MovedFrom(o: Obj): Obj {
    match o
    case SessionObj(_) => SessionObj(None)
    case ChannelObj(_, _, owning, _) => ChannelObj(None, None, owning, false)
  }

  /** The channels left when o lets go of its own. */
  function ChannelsWithout(channels: map<nat, nat>, o: Obj): map<nat, nat> {
    if OwnChannel(o).Some? then channels - {OwnChannel(o).value} else channels
  }

  lemma SessionsStay(objs: map<nat, Obj>, uses: map<nat, nat>, channels: map<nat, nat>, foreign: set<nat>, owner: map<nat, nat>)
    requires Counted(objs, uses) && Owned(objs, channels, foreign, owner)
    ensures forall c :: c in channels ==> channels[c] in uses
  {
    forall c | c in channels ensures channels[c] in uses {
      NoHolderNoChannel(objs, uses, channels, foreign, owner, c);
    }
  }

  /** Destruction: the object, its channel and its reference go; every channel left keeps its session. */
  lemma DestroyKeeps(objs: map<nat, Obj>, uses: map<nat, nat>, channels: map<nat, nat>, foreign: set<nat>,
                     owner: map<nat, nat>, id: nat)
    requires Counted(objs, uses) && Owned(objs, channels, foreign, owner) && id in objs
    ensures Refers(objs[id], channels, foreign)
    ensures var uses', channels' := Dropped(uses, objs[id].core), ChannelsWithout(channels, objs[id]);
      && Counted(objs - {id}, uses') && Owned(objs - {id}, channels', foreign, OwnersWithout(owner, objs[id]))
      && forall c :: c in channels' ==> channels'[c] in uses'
  {
    OwnedDrop(objs, objs - {id}, channels, foreign, owner, id);
    CountedDrop(objs, objs - {id}, uses, id);
    SessionsStay(objs - {id}, Dropped(uses, objs[id].core), ChannelsWithout(channels, objs[id]), foreign,
                 OwnersWithout(owner, objs[id]));
  }

  /** A new object that owns no channel. */
  lemma AddKeeps(objs: map<nat, Obj>, uses: map<nat, nat>, channels: map<nat, nat>, foreign: set<nat>, owner: map<nat, nat>,
                 id: nat, o: Obj, objs': map<nat, Obj>, uses': map<nat, nat>, foreign': set<nat>)
    requires Counted(objs, uses) && Owned(objs, channels, foreign, owner) && id !in objs && foreign <= foreign'
    requires Refers(o, channels, foreign') && OwnChannel(o) == None
    requires objs' == objs[id := o] && uses' == Taken(uses, o.core)
    ensures Counted(objs', uses') && Owned(objs', channels, foreign', owner)
  {
    CountedAdd(objs, uses, id, o);
    OwnedAdd(objs, channels, foreign, foreign', owner, id, o);
  }

  /** A new object with a new channel. */
  lemma AddOwnerKeeps(objs: map<nat, Obj>, uses: map<nat, nat>, channels: map<nat, nat>, foreign: set<nat>,
                      owner: map<nat, nat>, id: nat, o: Obj, c: nat, session: nat,
                      objs': map<nat, Obj>, uses': map<nat, nat>, channels': map<nat, nat>)
    requires Counted(objs, uses) && Owned(objs, channels, foreign, owner) && id !in objs
    requires OwnChannel(o) == Some(c) && o.core == Some(session) && c !in channels
    requires objs' == objs[id := o] && uses' == Taken(uses, o.core) && channels' == channels[c := session]
    ensures Counted(objs', uses') && Owned(objs', channels', foreign, owner[c := id])
  {
    CountedAdd(objs, uses, id, o);
    OwnedAddOwner(objs, channels, foreign, owner, id, o, c, session);
  }

  /** Move assignment, in two steps: the target gives up what it had, then takes over. */
  lemma MoveAssignKeeps(objs: map<nat, Obj>, uses: map<nat, nat>, channels: map<nat, nat>, foreign: set<nat>,
                        owner: map<nat, nat>, to: nat, from: nat,
                        objs': map<nat, Obj>, uses': map<nat, nat>, channels': map<nat, nat>)
    requires Counted(objs, uses) && Owned(objs, channels, foreign, owner)
    requires to in objs && from in objs && to != from && objs[to].ChannelObj? == objs[from].ChannelObj?
    requires objs' == objs[from := MovedFrom(objs[from])][to := objs[from]]
    requires uses' == Dropped(uses, objs[to].core) && channels' == ChannelsWithout(channels, objs[to])
    ensures Counted(objs', uses')
    ensures Owned(objs', channels', foreign, OwnersWith(OwnersWithout(owner, objs[to]), objs[from], to))
    ensures forall c :: c in channels' ==> channels'[c] in uses'
  {
    var target, source := objs[to], objs[from];
    var cleared: map<nat, Obj> := objs[to := MovedFrom(target)];
    OwnedDrop(objs, cleared, channels, foreign, owner, to);
    CountedDrop(objs, cleared, uses, to);
    assert objs' == cleared[from := objs'[from]][to := objs'[to]];
    CountedMove(cleared, objs', Dropped(uses, target.core), from, to);
    OwnedMove(cleared, objs', ChannelsWithout(channels, target), foreign, OwnersWithout(owner, target), from, to);
    SessionsStay(cleared, Dropped(uses, target.core), ChannelsWithout(channels, target), foreign, OwnersWithout(owner, target));
  }

  datatype Op =
    | NewSession(id: nat, made: bool)
    | OpenChannel(session: nat, id: nat, made: bool, opens: bool)
    | Borrow(holder: nat, id: nat)
    | Move(id: nat, from: nat)
    | Assign(to: nat, from: nat)
    | Delete(id: nat)

  /** What opening a channel on a core asks of libssh. */
  function OpenEvents(n: nat, core: Option<nat>, made: bool, opens: bool): seq<Event> {
    if core.None? || !made then []
    else [ChannelMade(n, core.value)] + (if opens then [] else [ChannelFreed(n)])
  }

  /** What is freed when o lets go and these counts remain. */
  function Freed(o: Obj, uses: map<nat, nat>): seq<Event> {
    (if OwnChannel(o).Some? then [ChannelFreed(OwnChannel(o).value)] else [])
    + (if o.core.Some? && o.core.value !in uses then [SessionFreed(o.core.value)] else [])
  }

  /** The counts tell whether the session goes. */
  lemma OrphanedIff(objs: map<nat, Obj>, uses: map<nat, nat>, o: Obj)
    requires Counted(objs, uses)
    ensures LetGo(o, objs) == Freed(o, uses)
  {
    if o.core.Some? {
      if o.core.value !in uses {
        NobodyHolds(objs, uses, o.core.value);
      } else {
        assert |Holders(objs, o.core.value)| > 0;
      }
    }
  }

  /** A program's objects and what libssh has been asked for. */
  datatype World = World(objs: map<nat, Obj>, log: seq<Event>)

  /** What is freed when o lets go and the objects in left remain: the channel it owns, then the session it
      held if none of them holds it. */
  ghost function LetGo(o: Obj, left: map<nat, Obj>): seq<Event> {
    (if OwnChannel(o).Some? then [ChannelFreed(OwnChannel(o).value)] else []) + Orphaned(o.core, left)
  }

  ghost function Orphaned(core: Option<nat>, left: map<nat, Obj>): seq<Event> {
    if core.Some? && Holders(left, core.value) == {} then [SessionFreed(core.value)] else []
  }

  /** What a step of a program means, without counts: who refers to what afterwards, and what libssh is asked
      to make and free. A step its objects do not allow does nothing. */
  ghost function Effect(op: Op, w: World): World {
    var n := Replay(w.log).next;
    match op
    case NewSession(id, made) =>
      if id in w.objs then w
      else if !made then World(w.objs[id := SessionObj(None)], w.log)
      else World(w.objs[id := SessionObj(Some(n))], w.log + [SessionMade(n)])
    case OpenChannel(session, id, made, opens) =>
      if session !in w.objs || !w.objs[session].SessionObj? || id in w.objs then w
      else
        var core := w.objs[session].core;
        World(if core.Some? && made && opens then w.objs[id := ChannelObj(Some(n), core, true, true)] else w.objs,
              w.log + OpenEvents(n, core, made, opens))
    case Borrow(holder, id) =>
      if holder !in w.objs || id in w.objs then w
      else World(w.objs[id := ChannelObj(Some(n), w.objs[holder].core, false, true)], w.log + [ForeignMade(n)])
    case Move(id, from) =>
      if id in w.objs || from !in w.objs then w
      else World(w.objs[from := MovedFrom(w.objs[from])][id := w.objs[from]], w.log)
    case Assign(to, from) =>
      if to !in w.objs || from !in w.objs || to == from || w.objs[to].ChannelObj? != w.objs[from].ChannelObj? then w
      else
        var objs := w.objs[from := MovedFrom(w.objs[from])][to := w.objs[from]];
        World(objs, w.log + LetGo(w.objs[to], objs))
    case Delete(id) =>
      if id !in w.objs then w else World(w.objs - {id}, w.log + LetGo(w.objs[id], w.objs - {id}))
  }

  // ---- what the steps mean, told by what can be looked up ----

  /** What a step has asked of libssh. */
  ghost function News(op: Op, w: World): seq<Event> {
    if |w.log| <= |Effect(op, w).log| then Effect(op, w).log[|w.log|..] else []
  }

  /** Some object other than i holds the session. */
  ghost predicate HeldBesides(w: World, i: nat, session: nat) {
    exists j :: j in w.objs && j != i && w.objs[j].core == Some(session)
  }

  /** i owns the channel. */
  ghost predicate Owns(w: World, i: nat, channel: nat) {
    i in w.objs && w.objs[i].ChannelObj? && w.objs[i].owning && w.objs[i].native == Some(channel)
  }

  /** No step rewrites the log. */
  lemma LogGrows(op: Op, w: World)
    ensures w.log <= Effect(op, w).log && Effect(op, w).log == w.log + News(op, w)
  {
  }

  /** What is freed when object i lets go: the channel it owns, then the session if nobody else holds it. */
  ghost predicate FreesOnly(news: seq<Event>, w: World, i: nat)
    requires i in w.objs
  {
    && (forall e :: e in news <==>
          || (e.ChannelFreed? && Owns(w, i, e.channel))
          || (e.SessionFreed? && w.objs[i].core == Some(e.session) && !HeldBesides(w, i, e.session)))
    && |news| <= 2 && (|news| == 2 ==> news[0].ChannelFreed? && news[1].SessionFreed?)
  }

  lemma DeleteDoes(id: nat, w: World)
    requires id in w.objs
    ensures var w' := Effect(Delete(id), w);
      && w'.objs.Keys == w.objs.Keys - {id} && (forall j :: j in w'.objs ==> w'.objs[j] == w.objs[j])
    ensures FreesOnly(News(Delete(id), w), w, id)
  {
    var left := w.objs - {id};
    LogGrows(Delete(id), w);
    LetGoIs(w.objs[id], left);
    forall session: nat ensures Holders(left, session) == {} <==> !HeldBesides(w, id, session) {
      if HeldBesides(w, id, session) {
        var j :| j in w.objs && j != id && w.objs[j].core == Some(session);
        assert j in Holders(left, session);
      }
    }
  }

  lemma LetGoIs(o: Obj, left: map<nat, Obj>)
    ensures var news := LetGo(o, left);
      && (forall e :: e in news <==>
            || (e.ChannelFreed? && o.ChannelObj? && o.owning && o.native == Some(e.channel))
            || (e.SessionFreed? && o.core == Some(e.session) && Holders(left, e.session) == {}))
      && |news| <= 2 && (|news| == 2 ==> news[0].ChannelFreed? && news[1].SessionFreed?)
  {
  }

  /** A moved-from object refers to nothing and is not open. */
  predicate RefersToNothing(o: Obj) {
    o.core == None && (o.ChannelObj? ==> o.native == None && !o.isOpen)
  }

  lemma MoveDoes(id: nat, from: nat, w: World)
    requires id !in w.objs && from in w.objs
    ensures var w' := Effect(Move(id, from), w);
      && w'.log == w.log && w'.objs.Keys == w.objs.Keys + {id}
      && w'.objs[id] == w.objs[from] && RefersToNothing(w'.objs[from]) && w'.objs[from].ChannelObj? == w.objs[from].ChannelObj?
      && forall j :: j in w.objs && j != from ==> w'.objs[j] == w.objs[j]
  {
  }

  lemma AssignDoes(to: nat, from: nat, w: World)
    requires to in w.objs && from in w.objs && w.objs[to].ChannelObj? == w.objs[from].ChannelObj?
    ensures to == from ==> Effect(Assign(to, from), w) == w
    ensures to != from ==>
      var w' := Effect(Assign(to, from), w);
      && w'.objs.Keys == w.objs.Keys
      && w'.objs[to] == w.objs[from] && RefersToNothing(w'.objs[from])
      && (forall j :: j in w.objs && j != from && j != to ==> w'.objs[j] == w.objs[j])
      && FreesOnly(News(Assign(to, from), w), w, to)
  {
    if to != from {
      var objs := w.objs[from := MovedFrom(w.objs[from])][to := w.objs[from]];
      LogGrows(Assign(to, from), w);
      LetGoIs(w.objs[to], objs);
      forall session: nat ensures Holders(objs, session) == {} <==> !HeldBesides(w, to, session) {
        if HeldBesides(w, to, session) {
          var j :| j in w.objs && j != to && w.objs[j].core == Some(session);
          assert (if j == from then to else j) in Holders(objs, session);
        }
      }
    }
  }

  /** A channel opens on a session object with a core if libssh makes it and it opens; it is freed again if it is
      made and does not open. */
  lemma OpenDoes(session: nat, id: nat, made: bool, opens: bool, w: World)
    requires session in w.objs && w.objs[session].SessionObj? && id !in w.objs
    ensures var w' := Effect(OpenChannel(session, id, made, opens), w);
      var news := News(OpenChannel(session, id, made, opens), w);
      && (id in w'.objs <==> w.objs[session].core.Some? && made && opens)
      && (id in w'.objs ==>
            && Owns(w', id, Replay(w.log).next) && w'.objs[id].isOpen && w'.objs[id].core == w.objs[session].core
            && news == [ChannelMade(Replay(w.log).next, w.objs[session].core.value)])
      && (w.objs[session].core.Some? && made && !opens ==>
            news == [ChannelMade(Replay(w.log).next, w.objs[session].core.value), ChannelFreed(Replay(w.log).next)])
      && (w.objs[session].core.None? || !made ==> news == [])
      && forall j :: j in w.objs ==> j in w'.objs && w'.objs[j] == w.objs[j]
  {
    LogGrows(OpenChannel(session, id, made, opens), w);
  }

  lemma NewSessionDoes(id: nat, made: bool, w: World)
    requires id !in w.objs
    ensures var w' := Effect(NewSession(id, made), w); var n := Replay(w.log).next;
      && w'.objs.Keys == w.objs.Keys + {id} && w'.objs[id] == SessionObj(if made then Some(n) else None)
      && News(NewSession(id, made), w) == (if made then [SessionMade(n)] else [])
      && forall j :: j in w.objs ==> w'.objs[j] == w.objs[j]
  {
    LogGrows(NewSession(id, made), w);
  }

  /** A borrowed channel shares the holder's core, is libssh's own, and frees nothing when it goes. */
  lemma BorrowDoes(holder: nat, id: nat, w: World)
    requires holder in w.objs && id !in w.objs
    ensures var w' := Effect(Borrow(holder, id), w);
      && w'.objs.Keys == w.objs.Keys + {id} && w'.objs[id].ChannelObj? && w'.objs[id].native == Some(Replay(w.log).next)
      && w'.objs[id].core == w.objs[holder].core && (forall c: nat :: !Owns(w', id, c))
      && News(Borrow(holder, id), w) == [ForeignMade(Replay(w.log).next)]
      && forall j :: j in w.objs ==> w'.objs[j] == w.objs[j]
  {
    LogGrows(Borrow(holder, id), w);
  }

  /** What the first k steps of a program mean. */
  ghost function Effects(ops: seq<Op>, k: nat, w: World): World
    requires k <= |ops|
  {
    if k == 0 then w else Effect(ops[k - 1], Effects(ops, k - 1, w))
  }

  /** A program's Session and Channel objects, and the use counts of the cores they share. */
  class Program {
    const ssh: Libssh
    var objs: map<nat, Obj>
    var uses: map<nat, nat>
    ghost var owner: map<nat, nat>

    /** The sessions that exist are those some object holds; the channels derived from them are
        those some object owns. */
    ghost predicate Valid()
      reads this, ssh
    {
      && ssh.Valid() && uses.Keys == ssh.sessions
      && Counted(objs, uses) && Owned(objs, ssh.channels, ssh.foreign, owner)
    }

    ghost function Now(): World
      reads this, ssh
    {
      World(objs, ssh.log)
    }

    constructor ()
      ensures Valid() && Now() == World(map[], []) && fresh(ssh)
    {
      ssh := new Libssh();
      objs, uses, owner := map[], map[], map[];
    }

    /** Releases one reference to a core: the last one out frees the session. */
    method Release(core: Option<nat>)
      requires ssh.Valid() && uses.Keys == ssh.sessions
      requires core.Some? ==> core.value in uses && uses[core.value] > 0
      requires forall c :: c in ssh.channels ==> ssh.channels[c] in Dropped(uses, core)
      modifies this`uses, ssh`sessions, ssh`log
      ensures ssh.Valid() && uses.Keys == ssh.sessions && uses == Dropped(old(uses), core)
      ensures ssh.log == old(ssh.log) + (if core.Some? && core.value !in uses then [SessionFreed(core.value)] else [])
    {
      if core.Some? {
        if uses[core.value] > 1 {
          uses := uses[core.value := uses[core.value] - 1];
        } else {
          uses := uses - {core.value};
          ssh.SessionFree(core.value);
        }
      }
    }

    /** What o held goes: the native channel first, if it is owned, then the core. */
    method Discard(o: Obj)
      requires ssh.Valid() && uses.Keys == ssh.sessions && Refers(o, ssh.channels, ssh.foreign)
      requires o.core.Some? ==> o.core.value in uses && uses[o.core.value] > 0
      requires forall c :: c in ChannelsWithout(ssh.channels, o) ==> ssh.channels[c] in Dropped(uses, o.core)
      modifies this`uses, ssh`channels, ssh`sessions, ssh`log
      ensures ssh.Valid() && uses.Keys == ssh.sessions && uses == Dropped(old(uses), o.core)
      ensures ssh.channels == ChannelsWithout(old(ssh.channels), o) && ssh.log == old(ssh.log) + Freed(o, uses)
    {
      if o.ChannelObj? && o.owning && o.native.Some? {
        ssh.ChannelFree(o.native.value);
      }
      Release(o.core);
    }

    /** Session(options): without a core if ssh_new fails. */
    method ConstructSession(id: nat, made: bool)
      requires Valid() && id !in objs
      modifies this`objs, this`uses, this`owner, ssh
      ensures Valid() && id in objs && objs == old(objs)[id := objs[id]] && objs[id].SessionObj?
      ensures ssh.channels == old(ssh.channels) && ssh.foreign == old(ssh.foreign)
      ensures objs[id].core.Some? <==> made
      ensures made ==> objs[id].core.value !in old(ssh.sessions)
      ensures Now() == Effect(NewSession(id, made), old(Now()))
    {
      var s := ssh.NewSession(made);
      objs, uses := objs[id := SessionObj(s)], Taken(uses, s);
      AddKeeps(old(objs), old(uses), ssh.channels, ssh.foreign, owner, id, SessionObj(s), objs, uses, ssh.foreign);
    }

    /** A native channel of the session, opened; one that does not open is freed again. */
    method OpenNative(session: nat, made: bool, opens: bool) returns (raw: Option<nat>)
      requires ssh.Valid() && session in ssh.sessions
      modifies ssh
      ensures ssh.Valid() && ssh.sessions == old(ssh.sessions) && ssh.foreign == old(ssh.foreign)
      ensures raw == if made && opens then Some(old(ssh.next)) else None
      ensures raw.None? ==> ssh.channels == old(ssh.channels)
      ensures raw.Some? ==> raw.value !in old(ssh.channels) && ssh.channels == old(ssh.channels)[raw.value := session]
      ensures ssh.log == old(ssh.log) + (if made then [ChannelMade(old(ssh.next), session)] else [])
                                      + (if made && !opens then [ChannelFreed(old(ssh.next))] else [])
    {
      raw := ssh.NewChannel(session, made);
      if raw.Some? && !opens {
        AddThenRemove(old(ssh.channels), raw.value, session);
        ssh.ChannelFree(raw.value);
        raw := None;
      }
    }

    /** Session::try_open_channel. A channel that does not open is freed again by the local object's
        destructor, which also gives back the reference that object took. */
    method TryOpenChannel(session: nat, id: nat, made: bool, opens: bool) returns (ok: bool)
      requires Valid() && session in objs && objs[session].SessionObj? && id !in objs
      modifies this`objs, this`uses, this`owner, ssh
      ensures Valid() && ssh.foreign == old(ssh.foreign)
      ensures ok <==> old(objs[session]).core.Some? && made && opens
      ensures !ok ==> objs == old(objs) && ssh.channels == old(ssh.channels)
      ensures ok ==>
        && objs == old(objs)[id := ChannelObj(Some(old(ssh.next)), old(objs[session]).core, true, true)]
        && old(ssh.next) !in old(ssh.channels)
      ensures ssh.log == old(ssh.log) + OpenEvents(old(ssh.next), old(objs[session]).core, made, opens)
    {
      var core := objs[session].core;
      ok := core.Some?;
      if ok {
        ok := OpenOn(core, id, made, opens);
      }
    }

    method OpenOn(core: Option<nat>, id: nat, made: bool, opens: bool) returns (ok: bool)
      requires Valid() && core.Some? && core.value in uses && id !in objs
      modifies this`objs, this`uses, this`owner, ssh
      ensures Valid() && ssh.foreign == old(ssh.foreign) && (ok <==> made && opens)
      ensures !ok ==> objs == old(objs) && ssh.channels == old(ssh.channels)
      ensures ok ==> objs == old(objs)[id := ChannelObj(Some(old(ssh.next)), core, true, true)]
      ensures ssh.log == old(ssh.log) + OpenEvents(old(ssh.next), core, made, opens)
    {
      ghost var before := ssh.channels;
      var raw := OpenNative(core.value, made, opens);
      ok := raw.Some?;
      if ok {
        Adopt(id, raw.value, core, before);
      }
    }

    /** A new object takes a channel that is new to it. */
    method Adopt(id: nat, c: nat, core: Option<nat>, ghost before: map<nat, nat>)
      requires ssh.Valid() && uses.Keys == ssh.sessions && core.Some? && core.value in uses
      requires Counted(objs, uses) && Owned(objs, before, ssh.foreign, owner) && id !in objs
      requires c !in before && ssh.channels == before[c := core.value]
      modifies this`objs, this`uses, this`owner
      ensures Valid() && objs == old(objs)[id := ChannelObj(Some(c), core, true, true)]
    {
      var o := ChannelObj(Some(c), core, true, true);
      AddOwnerKeeps(objs, uses, before, ssh.foreign, owner, id, o, c, core.value, objs[id := o], Taken(uses, core), ssh.channels);
      TakenKeys(uses, core);
      objs, uses, owner := objs[id := o], Taken(uses, core), owner[c := id];
    }

    /** Channel::from_native with borrowed ownership: core may be the session's or none. */
    method FromNativeBorrowed(id: nat, core: Option<nat>, isOpen: bool)
      requires Valid() && id !in objs && (core.Some? ==> core.value in ssh.sessions)
      modifies this`objs, this`uses, this`owner, ssh
      ensures Valid() && id in objs && objs == old(objs)[id := objs[id]] && ssh.channels == old(ssh.channels)
      ensures ssh.sessions == old(ssh.sessions) && old(ssh.foreign) <= ssh.foreign
      ensures objs[id] == ChannelObj(Some(Replay(old(ssh.log)).next), core, false, isOpen)
      ensures ssh.log == old(ssh.log) + [ForeignMade(Replay(old(ssh.log)).next)]
    {
      var raw := ssh.NewForeign();
      var o := ChannelObj(Some(raw), core, false, isOpen);
      objs, uses := objs[id := o], Taken(uses, core);
      AddKeeps(old(objs), old(uses), ssh.channels, old(ssh.foreign), owner, id, o, objs, uses, ssh.foreign);
    }

    /** ~Channel or ~Session: the native channel goes first, if it is owned, then the core. */
    method Destroy(id: nat)
      requires Valid() && id in objs
      modifies this`objs, this`uses, this`owner, ssh`channels, ssh`sessions, ssh`log
      ensures Valid() && objs == old(objs) - {id}
      ensures ssh.channels == ChannelsWithout(old(ssh.channels), old(objs[id]))
      ensures ssh.log == old(ssh.log) + LetGo(old(objs[id]), objs)
    {
      var o := objs[id];
      DestroyKeeps(objs, uses, ssh.channels, ssh.foreign, owner, id);
      Discard(o);
      objs, owner := objs - {id}, OwnersWithout(owner, o);
      OrphanedIff(objs, uses, o);
    }

    /** Move construction: id takes over all that from referred to. */
    method MoveConstruct(id: nat, from: nat)
      requires Valid() && id !in objs && from in objs
      modifies this`objs, this`owner
      ensures Valid() && Now() == Effect(Move(id, from), old(Now()))
    {
      ghost var before := objs;
      var o := objs[from];
      objs := objs[from := MovedFrom(o)][id := o];
      CountedMove(before, objs, uses, from, id);
      OwnedMove(before, objs, ssh.channels, ssh.foreign, owner, from, id);
      owner := OwnersWith(owner, o, id);
    }

    /** Move assignment: what to held is released, then it takes over all that from referred to.
        Assigning an object to itself changes nothing. */
    method MoveAssign(to: nat, from: nat)
      requires Valid() && to in objs && from in objs && objs[to].ChannelObj? == objs[from].ChannelObj?
      modifies this`objs, this`uses, this`owner, ssh`channels, ssh`sessions, ssh`log
      ensures Valid()
      ensures to == from ==> objs == old(objs) && ssh.channels == old(ssh.channels)
      ensures to != from ==>
        && objs == old(objs)[from := MovedFrom(old(objs[from]))][to := old(objs[from])]
        && ssh.channels == ChannelsWithout(old(ssh.channels), old(objs[to]))
      ensures Now() == Effect(Assign(to, from), old(Now()))
    {
      if to != from {
        Replace(to, from);
        OrphanedIff(objs, uses, old(objs[to]));
      }
    }

    method Replace(to: nat, from: nat)
      requires Valid() && to in objs && from in objs && to != from && objs[to].ChannelObj? == objs[from].ChannelObj?
      modifies this`objs, this`uses, this`owner, ssh`channels, ssh`sessions, ssh`log
      ensures Valid()
      ensures objs == old(objs)[from := MovedFrom(old(objs[from]))][to := old(objs[from])]
      ensures ssh.channels == ChannelsWithout(old(ssh.channels), old(objs[to]))
      ensures ssh.log == old(ssh.log) + Freed(old(objs[to]), uses)
    {
      var target, source := objs[to], objs[from];
      ghost var objs' := objs[from := MovedFrom(source)][to := source];
      MoveAssignKeeps(objs, uses, ssh.channels, ssh.foreign, owner, to, from,
                      objs', Dropped(uses, target.core), ChannelsWithout(ssh.channels, target));
      Discard(target);
      objs := objs[from := MovedFrom(source)][to := source];
      owner := OwnersWith(OwnersWithout(owner, target), source, to);
    }

    /** One step of a program, if its objects allow it. */
    method Execute(op: Op)
      requires Valid()
      modifies this`objs, this`uses, this`owner, ssh
      ensures Valid() && old(ssh.foreign) <= ssh.foreign
      ensures Now() == Effect(op, old(Now()))
    {
      match op
      case NewSession(id, made) =>
        if id !in objs {
          ConstructSession(id, made);
        }
      case OpenChannel(session, id, made, opens) =>
        if session in objs && objs[session].SessionObj? && id !in objs {
          var _ := TryOpenChannel(session, id, made, opens);
        }
      case Borrow(holder, id) =>
        if holder in objs && id !in objs {
          FromNativeBorrowed(id, objs[holder].core, true);
        }
      case Move(id, from) =>
        if id !in objs && from in objs {
          MoveConstruct(id, from);
        }
      case Assign(to, from) =>
        if to in objs && from in objs && objs[to].ChannelObj? == objs[from].ChannelObj? {
          MoveAssign(to, from);
        }
      case Delete(id) =>
        if id in objs {
          Destroy(id);
        }
    }

    /** Any program, in any order: each step has its effect, what libssh is asked for is lawful, and when
        the last object is gone nothing is left unfreed but what libssh owns. */
    method Run(ops: seq<Op>)
      requires Valid()
      modifies this`objs, this`uses, this`owner, ssh
      ensures Valid() && Now() == Effects(ops, |ops|, old(Now())) && FreedProperly(ssh.log)
      ensures objs == map[] ==> ssh.sessions == {} && ssh.channels == map[] && AllFreed(ssh.log)
      ensures old(ssh.foreign) <= ssh.foreign
    {
      for i := 0 to |ops|
        invariant Valid() && Now() == Effects(ops, i, old(Now())) && old(ssh.foreign) <= ssh.foreign
      {
        Execute(ops[i]);
      }
      LawfulIsProper(ssh.log);
      NothingHeldNothingLive();
    }

    lemma NothingHeldNothingLive()
      requires Valid()
      ensures objs == map[] ==> ssh.sessions == {} && ssh.channels == map[] && AllFreed(ssh.log)
    {
      LawfulIsExplained(ssh.log);
      if s :| s in ssh.sessions {
        assert s in uses && |Holders(objs, s)| > 0;
        var i :| i in Holders(objs, s);
        assert i in objs;
      }
    }

    /** Destroying the remaining objects, in any order. */
    method DestroyAll()
      requires Valid()
      modifies this`objs, this`uses, this`owner, ssh`channels, ssh`sessions, ssh`log
      ensures Valid() && ssh.sessions == {} && ssh.channels == map[] && FreedProperly(ssh.log) && AllFreed(ssh.log)
    {
      while objs != map[]
        invariant Valid()
        decreases |objs|
      {
        var id :| id in objs;
        Destroy(id);
      }
      LawfulIsProper(ssh.log);
      NothingHeldNothingLive();
    }
  }
}
