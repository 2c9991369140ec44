/** The bridge's table of server channels: registration, close notifications and their deferred
    removal by Session::try_poll. */
module ChannelTable {
  import opened Basics

  /** A registered channel; state is the identity of the ChannelState, which a reused native
      pointer does not share. attached is false once its callbacks have been removed. */
  datatype ChannelState = ChannelState(state: nat, attached: bool)

  /** What libssh may deliver during one poll. A channel event is only delivered to a channel
      that is registered with its callbacks attached. */
  datatype Event =
    | OpenSession(address: nat, accepted: bool)
    | Closed(raw: nat)
    | SubsystemRequest(raw: nat, accepted: bool)

  ghost function StatesOf(channels: map<nat, ChannelState>): set<nat> {
    set raw | raw in channels :: channels[raw].state
  }

  ghost predicate DistinctStates(channels: map<nat, ChannelState>) {
    forall a, b :: a in channels && b in channels && a != b ==> channels[a].state != channels[b].state
  }

  lemma StatesAfterAdd(channels: map<nat, ChannelState>, raw: nat, c: ChannelState)
    requires raw !in channels && c.state !in StatesOf(channels) && DistinctStates(channels)
    ensures StatesOf(channels[raw := c]) == StatesOf(channels) + {c.state} && DistinctStates(channels[raw := c])
  {
    var channels' := channels[raw := c];
    assert channels'[raw] == c;
    assert forall a :: a in channels ==> channels'[a] == channels[a] && channels[a].state in StatesOf(channels);
    assert forall a :: a in channels' ==> channels'[a].state in StatesOf(channels');
  }

  lemma StatesAfterRemove(channels: map<nat, ChannelState>, raw: nat)
    requires raw in channels && DistinctStates(channels)
    ensures StatesOf(channels - {raw}) == StatesOf(channels) - {channels[raw].state}
    ensures DistinctStates(channels - {raw})
  {
    var channels' := channels - {raw};
    assert forall a :: a in channels' ==> channels'[a] == channels[a];
    assert forall a :: a in channels && a != raw ==> a in channels';
    assert forall a :: a in channels' ==> channels'[a].state in StatesOf(channels');
  }

  /** The same table with one channel's callbacks removed. */
  lemma StatesAfterDetach(channels: map<nat, ChannelState>, raw: nat)
    requires raw in channels && DistinctStates(channels)
    ensures StatesOf(channels[raw := channels[raw].(attached := false)]) == StatesOf(channels)
    ensures DistinctStates(channels[raw := channels[raw].(attached := false)])
  {
    var channels' := channels[raw := channels[raw].(attached := false)];
    assert forall a :: a in channels ==> channels'[a].state == channels[a].state;
    assert forall a :: a in channels ==> channels'[a].state in StatesOf(channels') && channels[a].state in StatesOf(channels);
  }

  /** What waits for removal is what is in the table and has been notified. */
  ghost predicate Noted(channels: map<nat, ChannelState>, pending: seq<nat>, notified: set<nat>) {
    && (forall raw :: raw in pending ==> raw in channels && channels[raw].state in notified)
    && (forall raw :: raw in channels && channels[raw].state in notified ==> raw in pending)
  }

  /** Callbacks come off exactly with a handover, or after the close. */
  ghost predicate Detached(channels: map<nat, ChannelState>, handedOff: set<nat>, notified: set<nat>) {
    && (forall raw :: raw in channels && !channels[raw].attached ==> channels[raw].state in handedOff + notified)
    && (forall raw :: raw in channels && channels[raw].state in handedOff ==> !channels[raw].attached)
  }

  lemma DetachKeeps(channels: map<nat, ChannelState>, raw: nat, pending: seq<nat>, notified: set<nat>, handedOff: set<nat>)
    requires raw in channels && DistinctStates(channels)
    requires Noted(channels, pending, notified) && Detached(channels, handedOff, notified)
    ensures var channels', s := channels[raw := channels[raw].(attached := false)], channels[raw].state;
      && Noted(channels', pending, notified)
      && Detached(channels', if s in notified then handedOff else handedOff + {s}, notified)
  {
    var channels' := channels[raw := channels[raw].(attached := false)];
    assert forall r :: r in channels ==> channels'[r].state == channels[r].state;
  }

  ghost function Elements(s: seq<nat>): set<nat> {
    set x | x in s
  }

  /** No accepted subsystem has taken the channel's callbacks off in events from..n. */
  predicate StillAttached(events: seq<Event>, from: nat, n: nat, raw: nat)
    requires n <= |events|
  {
    forall j :: from <= j < n ==> events[j] != SubsystemRequest(raw, true)
  }

  /** A close of the channel is noted in events from..n. */
  predicate ClosedBy(events: seq<Event>, from: nat, n: nat, raw: nat)
    requires n <= |events|
  {
    exists i :: from <= i < n && events[i] == Closed(raw) && StillAttached(events, from, i, raw)
  }

  /** Event i is the first to open a channel at raw. */
  predicate OpensAt(events: seq<Event>, i: nat, raw: nat)
    requires i < |events|
  {
    events[i] == OpenSession(raw, true) && forall j :: 0 <= j < i ==> events[j] != OpenSession(raw, true)
  }

  /** Some event of the first n opens a channel at raw. */
  predicate OpenedBy(events: seq<Event>, n: nat, raw: nat)
    requires n <= |events|
  {
    exists i :: 0 <= i < n && OpensAt(events, i, raw)
  }

  lemma OneMoreEvent(events: seq<Event>, from: nat, n: nat, raw: nat)
    requires from <= n < |events|
    ensures StillAttached(events, from, n + 1, raw) <==>
      StillAttached(events, from, n, raw) && events[n] != SubsystemRequest(raw, true)
    ensures ClosedBy(events, from, n + 1, raw) <==>
      ClosedBy(events, from, n, raw) || (events[n] == Closed(raw) && StillAttached(events, from, n, raw))
  {
  }

  lemma {:induction false} FirstOpening(events: seq<Event>, n: nat, raw: nat)
    requires n <= |events|
    ensures OpenedBy(events, n, raw) <==> exists i :: 0 <= i < n && events[i] == OpenSession(raw, true)
  {
    if n > 0 {
      FirstOpening(events, n - 1, raw);
      if OpenedBy(events, n - 1, raw) {
        var i :| 0 <= i < n - 1 && OpensAt(events, i, raw);
        assert OpensAt(events, i, raw);
      } else if events[n - 1] == OpenSession(raw, true) {
        assert OpensAt(events, n - 1, raw);
      }
    }
  }

  /** c is the state of a channel that had its callbacks when event from was delivered, if it was
      attached, now that n have been. */
  ghost predicate After(c: ChannelState, attached: bool, notified: set<nat>, events: seq<Event>, from: nat, n: nat, raw: nat)
    requires from <= n <= |events|
  {
    && (c.attached <==> attached && StillAttached(events, from, n, raw))
    && (c.state in notified <==> attached && ClosedBy(events, from, n, raw))
  }

  /** What the first n events of a poll have made of the table it started with: of the channels it
      held, and of those opened since. */
  ghost predicate Delivered(start: map<nat, ChannelState>, channels: map<nat, ChannelState>, notified: set<nat>,
                            events: seq<Event>, n: nat)
    requires n <= |events|
  {
    && (forall raw :: raw in start ==>
          && raw in channels && channels[raw].state == start[raw].state
          && After(channels[raw], start[raw].attached, notified, events, 0, n, raw))
    && (forall raw :: raw !in start ==> (raw in channels <==> OpenedBy(events, n, raw)))
    && (forall raw, i :: raw !in start && 0 <= i < n && OpensAt(events, i, raw) ==>
          raw in channels && After(channels[raw], true, notified, events, i + 1, n, raw))
  }

  /** One event's effect on the table. */
  ghost predicate Step(channels: map<nat, ChannelState>, channels': map<nat, ChannelState>,
                       notified: set<nat>, notified': set<nat>, e: Event) {
    && (forall raw :: raw in channels ==>
          && raw in channels' && channels'[raw].state == channels[raw].state
          && (channels'[raw].attached <==> channels[raw].attached && e != SubsystemRequest(raw, true))
          && (channels'[raw].state in notified' <==>
                channels[raw].state in notified || (e == Closed(raw) && channels[raw].attached)))
    && (forall raw :: raw !in channels ==> (raw in channels' <==> e == OpenSession(raw, true)))
    && (forall raw :: raw !in channels && raw in channels' ==>
          channels'[raw].attached && channels'[raw].state !in notified')
  }

  /** One channel's part of the step. */
  lemma AfterStep(c: ChannelState, c': ChannelState, attached: bool, notified: set<nat>, notified': set<nat>,
                  events: seq<Event>, from: nat, n: nat, raw: nat)
    requires from <= n < |events| && After(c, attached, notified, events, from, n, raw)
    requires c'.attached <==> c.attached && events[n] != SubsystemRequest(raw, true)
    requires c'.state in notified' <==> c.state in notified || (events[n] == Closed(raw) && c.attached)
    ensures After(c', attached, notified', events, from, n + 1, raw)
  {
    OneMoreEvent(events, from, n, raw);
  }

  lemma DeliveredStep(start: map<nat, ChannelState>, channels: map<nat, ChannelState>, channels': map<nat, ChannelState>,
                      notified: set<nat>, notified': set<nat>, events: seq<Event>, n: nat)
    requires n < |events| && Delivered(start, channels, notified, events, n)
    requires Step(channels, channels', notified, notified', events[n])
    ensures Delivered(start, channels', notified', events, n + 1)
  {
    forall raw | raw in start ensures After(channels'[raw], start[raw].attached, notified', events, 0, n + 1, raw) {
      AfterStep(channels[raw], channels'[raw], start[raw].attached, notified, notified', events, 0, n, raw);
    }
    forall raw | raw !in start ensures raw in channels' <==> OpenedBy(events, n + 1, raw) {
      FirstOpening(events, n, raw);
      FirstOpening(events, n + 1, raw);
    }
    forall raw, i | raw !in start && 0 <= i < n + 1 && OpensAt(events, i, raw)
      ensures raw in channels' && After(channels'[raw], true, notified', events, i + 1, n + 1, raw)
    {
      if i < n {
        AfterStep(channels[raw], channels'[raw], true, notified, notified', events, i + 1, n, raw);
      } else {
        FirstOpening(events, n, raw);
        assert raw !in channels && raw in channels';
      }
    }
  }

  /** The table after a poll that started from start. A channel it held is gone exactly when it had its
      callbacks and a close came before any accepted subsystem took them off; a channel opened during
      the poll is there exactly unless the same happened after its opening. */
  ghost predicate Polled(start: map<nat, ChannelState>, channels: map<nat, ChannelState>, events: seq<Event>) {
    && (forall raw :: raw in start ==>
          (raw !in channels <==> start[raw].attached && ClosedBy(events, 0, |events|, raw)))
    && (forall raw :: raw in start && raw in channels ==>
          && channels[raw].state == start[raw].state
          && (channels[raw].attached <==> start[raw].attached && StillAttached(events, 0, |events|, raw)))
    && (forall raw :: raw !in start && raw in channels ==> OpenedBy(events, |events|, raw))
    && (forall raw, i :: raw !in start && 0 <= i < |events| && OpensAt(events, i, raw) ==>
          && (raw in channels <==> !ClosedBy(events, i + 1, |events|, raw))
          && (raw in channels ==> (channels[raw].attached <==> StillAttached(events, i + 1, |events|, raw))))
  }

  lemma ReapedIsPolled(start: map<nat, ChannelState>, before: map<nat, ChannelState>, channels: map<nat, ChannelState>,
                       notified: set<nat>, events: seq<Event>)
    requires Delivered(start, before, notified, events, |events|)
    requires forall raw :: raw in channels <==> raw in before && before[raw].state !in notified
    requires forall raw :: raw in channels ==> channels[raw] == before[raw]
    ensures Polled(start, channels, events)
  {
  }

  // ---- what a poll does, by the events alone ----

  /** A channel of the table that still has its callbacks is gone after a close that no accepted subsystem precedes. */
  lemma ClosedIsGone(start: map<nat, ChannelState>, channels: map<nat, ChannelState>, events: seq<Event>, raw: nat, i: nat)
    requires Polled(start, channels, events) && raw in start && start[raw].attached
    requires i < |events| && events[i] == Closed(raw) && forall j :: 0 <= j < i ==> events[j] != SubsystemRequest(raw, true)
    ensures raw !in channels
  {
    assert StillAttached(events, 0, i, raw);
  }

  /** It stays if it is not closed, or had been handed over before the poll, or is before its first close. */
  lemma OtherwiseItStays(start: map<nat, ChannelState>, channels: map<nat, ChannelState>, events: seq<Event>, raw: nat)
    requires Polled(start, channels, events) && raw in start
    requires !start[raw].attached ||
      forall i :: 0 <= i < |events| && events[i] == Closed(raw) ==> exists j :: 0 <= j < i && events[j] == SubsystemRequest(raw, true)
    ensures raw in channels && channels[raw].state == start[raw].state
    ensures channels[raw].attached <==>
      start[raw].attached && forall j :: 0 <= j < |events| ==> events[j] != SubsystemRequest(raw, true)
  {
  }

  /** A channel accepted at a free address is there after the poll, unless it is closed afterwards, before any
      accepted subsystem; at an address where none is accepted there is none. */
  lemma OpenedIsThere(start: map<nat, ChannelState>, channels: map<nat, ChannelState>, events: seq<Event>, raw: nat, i: nat)
    requires Polled(start, channels, events) && raw !in start && i < |events| && events[i] == OpenSession(raw, true)
    requires forall j :: 0 <= j < i ==> events[j] != OpenSession(raw, true)
    ensures (forall j :: i < j < |events| ==> events[j] != Closed(raw)) ==> raw in channels
    ensures (forall j :: i < j < |events| ==> events[j] != Closed(raw) && events[j] != SubsystemRequest(raw, true)) ==>
      channels[raw].attached
    ensures (exists k :: i < k < |events| && events[k] == Closed(raw)
                         && forall j :: i < j < k ==> events[j] != SubsystemRequest(raw, true)) ==>
      raw !in channels
  {
    assert OpensAt(events, i, raw);
    forall k | i < k < |events| && events[k] == Closed(raw)
               && forall j :: i < j < k ==> events[j] != SubsystemRequest(raw, true)
      ensures raw !in channels
    {
      assert StillAttached(events, i + 1, k, raw);
      assert ClosedBy(events, i + 1, |events|, raw);
    }
  }

  lemma NotOpenedIsNotThere(start: map<nat, ChannelState>, channels: map<nat, ChannelState>, events: seq<Event>, raw: nat)
    requires Polled(start, channels, events) && raw !in start
    requires forall j :: 0 <= j < |events| ==> events[j] != OpenSession(raw, true)
    ensures raw !in channels
  {
  }

  class HandlerBridge {
    var channels: map<nat, ChannelState>
    var pending: seq<nat>            // pending_removals_
    var nextState: nat
    ghost var polling: bool          // inside ssh_event_dopoll
    ghost var registered: set<nat>   // every state ever created
    ghost var notified: set<nat>     // states whose close callback has run
    ghost var freed: set<nat>        // states destroyed, and their channels freed
    ghost var handedOff: set<nat>    // states taken over by a subsystem

    /** At every moment, also inside a poll: what is registered and not yet freed is in the table;
        what waits for removal is in the table and has been notified. */
    ghost predicate Valid()
      reads this
    {
      && DistinctStates(channels)
      && registered == StatesOf(channels) + freed && StatesOf(channels) !! freed
      && (forall s :: s in registered ==> s < nextState)
      && freed <= notified <= registered
      && handedOff !! notified && handedOff <= registered
      && Noted(channels, pending, notified)
      && Detached(channels, handedOff, notified)
    }

    /** Between polls nothing waits: the table is what was registered minus what was closed, and
        exactly the closed ones have been freed. */
    ghost predicate Settled()
      reads this
    {
      && Valid() && !polling && pending == []
      && freed == notified && StatesOf(channels) == registered - notified
    }

    /** Inside a poll the table and its records only grow. */
    twostate predicate Grows()
      reads this
    {
      && freed == old(freed)
      && old(registered) <= registered && old(notified) <= notified && old(handedOff) <= handedOff
      && forall raw :: raw in old(channels) ==> raw in channels && channels[raw].state == old(channels[raw].state)
    }

    constructor ()
      ensures Settled() && channels == map[] && registered == {}
    {
      channels, pending, nextState := map[], [], 0;
      polling, registered, notified, freed, handedOff := false, {}, {}, {}, {};
    }

    /** register_channel, for the address ssh_channel_new has just returned: any address that is
        not in use, be it that of a channel freed before. */
    method RegisterChannel(raw: nat)
      requires Valid() && raw !in channels
      modifies this`channels, this`nextState, this`registered
      ensures Valid() && channels == old(channels)[raw := ChannelState(old(nextState), true)]
      ensures registered == old(registered) + {old(nextState)} && old(nextState) !in old(registered)
    {
      StatesAfterAdd(channels, raw, ChannelState(nextState, true));
      channels := channels[raw := ChannelState(nextState, true)];
      registered := registered + {nextState};
      nextState := nextState + 1;
    }

    method ChannelOpenSessionCb(address: nat, accepted: bool) returns (raw: Option<nat>)
      requires Valid() && polling
      modifies this`channels, this`nextState, this`registered
      ensures Valid() && Grows()
      ensures raw.Some? <==> accepted && address !in old(channels)
      ensures raw.None? ==> channels == old(channels) && registered == old(registered)
      ensures raw.Some? ==> accepted && raw.value == address && address !in old(channels)
      ensures raw.Some? ==> channels == old(channels)[address := ChannelState(old(nextState), true)]
    {
      if !accepted || address in channels {
        return None;  // refused by the handler, or ssh_channel_new failed
      }
      RegisterChannel(address);
      raw := Some(address);
    }

    /** The close callback only notes the channel; freeing it here would pull it from under the
        poll that is delivering the event. */
    method ChannelCloseCb(raw: nat)
      requires Valid() && polling && raw in channels && channels[raw].attached
      modifies this`pending, this`notified
      ensures Valid() && Grows() && pending == old(pending) + [raw] && notified == old(notified) + {channels[raw].state}
    {
      pending := pending + [raw];
      notified := notified + {channels[raw].state};
      forall r | r in channels && channels[r].state in notified ensures r in pending {
        if r != raw {
          assert channels[r].state in old(notified);
        }
      }
    }

    /** An accepted subsystem reads the channel itself, so the callbacks come off: from then on no
        close of this channel is ever noted. */
    method ChannelSubsystemRequestCb(raw: nat, accepted: bool)
      requires Valid() && polling && raw in channels && channels[raw].attached
      modifies this`channels, this`handedOff
      ensures Valid() && Grows()
      ensures channels == if accepted then old(channels)[raw := old(channels[raw]).(attached := false)] else old(channels)
      ensures accepted ==> channels[raw].state in handedOff + notified
    {
      if accepted {
        StatesAfterDetach(channels, raw);
        DetachKeeps(channels, raw, pending, notified, handedOff);
        if channels[raw].state !in notified {
          assert channels[raw].state in StatesOf(channels);
          handedOff := handedOff + {channels[raw].state};
        }
        channels := channels[raw := channels[raw].(attached := false)];
      }
    }

    /** Erases, and so frees, what the close callbacks have noted. Never inside a poll. A channel
        notified twice is erased once. */
    method ReapClosedChannels()
      requires Valid() && !polling
      modifies this`channels, this`pending, this`freed
      ensures Settled()
      ensures forall raw :: raw in channels <==> raw in old(channels) && old(channels[raw].state) !in notified
      ensures forall raw :: raw in channels ==> channels[raw] == old(channels[raw])
    {
      EraseAll();
      pending := [];
      NothingNotifiedLeft();
    }

    method EraseAll()
      requires Accounted() && !polling
      requires forall raw :: raw in pending && raw in channels ==> channels[raw].state in notified
      modifies this`channels, this`freed
      ensures Accounted() && channels == old(channels) - Elements(pending)
    {
      for i := 0 to |pending|
        invariant Accounted() && channels == old(channels) - Elements(pending[..i])
      {
        assert pending[i] in pending && Elements(pending[..i + 1]) == Elements(pending[..i]) + {pending[i]};
        Erase(pending[i]);
      }
      assert pending[..|pending|] == pending;
    }

    ghost predicate Accounted()
      reads this
    {
      && DistinctStates(channels) && registered == StatesOf(channels) + freed && StatesOf(channels) !! freed
      && freed <= notified
    }

    /** channels_.erase: destroys the entry at raw, if there is one. */
    method Erase(raw: nat)
      requires Accounted() && !polling && (raw in channels ==> channels[raw].state in notified)
      modifies this`channels, this`freed
      ensures Accounted() && channels == old(channels) - {raw}
      ensures freed == old(freed) + (if raw in old(channels) then {old(channels[raw].state)} else {})
    {
      if raw in channels {
        StatesAfterRemove(channels, raw);
        assert channels[raw].state in StatesOf(channels);
        freed := freed + {channels[raw].state};
        channels := channels - {raw};
      } else {
        assert channels - {raw} == channels;
      }
    }

    lemma NothingNotifiedLeft()
      requires Accounted() && notified <= registered
      requires forall raw :: raw in channels ==> channels[raw].state !in notified
      ensures freed == notified && StatesOf(channels) == registered - notified
    {
      assert StatesOf(channels) !! notified;
    }

    /** One event of a poll, if libssh delivers it at all. */
    method Deliver(e: Event)
      requires Valid() && polling
      modifies this`channels, this`nextState, this`registered, this`pending, this`notified, this`handedOff
      ensures Valid() && Grows() && Step(old(channels), channels, old(notified), notified, e)
    {
      match e
      case OpenSession(address, accepted) =>
        var _ := ChannelOpenSessionCb(address, accepted);
      case Closed(raw) =>
        if raw in channels && channels[raw].attached {
          ChannelCloseCb(raw);
        }
      case SubsystemRequest(raw, accepted) =>
        if raw in channels && channels[raw].attached {
          ChannelSubsystemRequestCb(raw, accepted);
        }
    }

    /** ssh_event_dopoll, which delivers the events. */
    method DoPoll(events: seq<Event>)
      requires Valid() && polling && pending == []
      modifies this`channels, this`nextState, this`registered, this`pending, this`notified, this`handedOff
      ensures Valid() && Grows() && Delivered(old(channels), channels, notified, events, |events|)
    {
      for i := 0 to |events|
        invariant Valid() && Grows()
        invariant Delivered(old(channels), channels, notified, events, i)
      {
        ghost var before, noted := channels, notified;
        Deliver(events[i]);
        DeliveredStep(old(channels), before, channels, noted, notified, events, i);
      }
    }

    /** Session::try_poll: whatever a poll delivers, nothing is freed before it returns, and then
        exactly the channels closed so far are gone. Every other channel keeps its own entry, so no
        stale note can remove a channel that reuses an address. */
    method TryPoll(events: seq<Event>)
      requires Settled()
      modifies this
      ensures Settled()
      ensures old(registered) <= registered && old(notified) <= notified && old(handedOff) <= handedOff
      ensures Polled(old(channels), channels, events)
      ensures forall raw :: raw in old(channels) && old(channels[raw].state) in old(handedOff) ==>
        raw in channels && channels[raw].state == old(channels[raw].state)
    {
      polling := true;
      DoPoll(events);
      polling := false;
      ghost var before := channels;
      ReapClosedChannels();
      ReapedIsPolled(old(channels), before, channels, notified, events);
    }

    /** ~HandlerBridge: the table goes, and with it everything not freed before. */
    method Destroy()
      requires Settled()
      modifies this`channels, this`freed
      ensures channels == map[] && freed == registered
    {
      freed := freed + StatesOf(channels);
      channels := map[];
    }
  }
}
