/** Directory listings end to end: the server's READDIR batches, Directory::next and Sftp::try_list. */
module Listing {
  import opened Basics
  import opened Posix
  import opened SftpProtocol
  import opened SftpServer

  lemma {:induction false} StatableAppend(fs: Fs, p: Path, a: seq<string>, b: seq<string>)
    ensures Statable(fs, p, a + b) == Statable(fs, p, a) + Statable(fs, p, b)
  {
    if b == [] {
      assert a + b == a;
    } else {
      assert (a + b)[..|a + b| - 1] == a + b[..|b| - 1];
      StatableAppend(fs, p, a, b[..|b| - 1]);
    }
  }

  predicate AllStatable(fs: Fs, p: Path, names: seq<string>) {
    forall n :: n in names ==> CanStat(fs, p, n)
  }

  lemma {:induction false} StatableAll(fs: Fs, p: Path, names: seq<string>)
    requires AllStatable(fs, p, names)
    ensures Statable(fs, p, names) == names
  {
    if names != [] {
      StatableAll(fs, p, names[..|names| - 1]);
      assert names[..|names| - 1] + [names[|names| - 1]] == names;
    }
  }

  /** Where lstat can see every entry, a batch is the next MAX_BATCH names, or the last ones. */
  lemma WholeBatch(fs: Fs, p: Path, order: seq<string>, sent: nat, sent': nat, names: seq<string>)
    requires sent <= sent' <= |order| && AllStatable(fs, p, order)
    requires names == Statable(fs, p, order[sent..sent']) && |names| <= MAX_BATCH
    requires sent' == |order| || |names| == MAX_BATCH
    ensures names == order[sent..sent'] && sent' == Min(sent + MAX_BATCH, |order|)
  {
    StatableAll(fs, p, order[sent..sent']);
  }

  function Flatten(batches: seq<seq<string>>): seq<string> {
    if batches == [] then [] else Flatten(batches[..|batches| - 1]) + batches[|batches| - 1]
  }

  /** The handle is a directory with these names still to deliver. */
  predicate Delivers(s: Snapshot, slot: nat, rest: seq<string>) {
    IsOpen(s, slot, true) && s.fds[s.handles[slot].fd].DirFd? && s.fds[s.handles[slot].fd].rest == rest
  }

  /** One request on a stream that had delivered the first sent names of all. */
  method Batch(server: Subsystem, slot: nat, ghost all: seq<string>, ghost sent: nat)
    returns (names: Option<seq<string>>, ghost sent': nat)
    requires server.Valid() && sent <= |all| && Delivers(server.Now(), slot, all[sent..])
    modifies server.os`fds, server.outbox`sent
    ensures server.Valid() && sent <= sent' <= |all|
    ensures Delivers(server.Now(), slot, all[sent'..])
    ensures server.os.fds == old(server.os.fds)[server.handles[slot].fd := server.os.fds[server.handles[slot].fd]]
    ensures names.None? <==> sent == |all|
    ensures names.None? ==> sent' == sent
    ensures names.Some? ==>
      && sent < sent' && names.value == Statable(server.os.fs, server.handles[slot].path, all[sent..sent'])
      && |names.value| <= MAX_BATCH && (sent' == |all| || |names.value| == MAX_BATCH)
  {
    var answer, consumed := server.OnReaddir(slot);
    sent' := sent + consumed;
    assert all[sent..][..consumed] == all[sent..sent'] && all[sent..][consumed..] == all[sent'..];
    names := if answer.Names? then Some(answer.names) else None;
  }

  /** The batches taken so far, from a directory of which the first sent names have been delivered. */
  ghost predicate Batched(fs: Fs, p: Path, all: seq<string>, sent: nat, batches: seq<seq<string>>) {
    && sent <= |all| && Flatten(batches) == Statable(fs, p, all[..sent])
    && (forall i :: 0 <= i < |batches| ==> |batches[i]| <= MAX_BATCH)
    && (forall i :: 0 <= i < |batches| ==> |batches[i]| == MAX_BATCH || (i == |batches| - 1 && sent == |all|))
  }

  lemma BatchedStep(fs: Fs, p: Path, all: seq<string>, sent: nat, batches: seq<seq<string>>, sent': nat, batch: seq<string>)
    requires Batched(fs, p, all, sent, batches) && sent < sent' <= |all|
    requires batch == Statable(fs, p, all[sent..sent']) && |batch| <= MAX_BATCH
    requires sent' == |all| || |batch| == MAX_BATCH
    ensures Batched(fs, p, all, sent', batches + [batch])
  {
    assert Flatten(batches + [batch]) == Statable(fs, p, all[..sent']) by {
      StatableAppend(fs, p, all[..sent], all[sent..sent']);
      assert all[..sent] + all[sent..sent'] == all[..sent'];
      assert (batches + [batch])[..|batches|] == batches;
    }
  }

  /** Asking until EOF gives the directory back in order, whatever its size: every batch but the
      last is full, and only the last can be short. */
  method ReadAllBatches(server: Subsystem, slot: nat) returns (batches: seq<seq<string>>)
    requires server.Valid() && IsOpen(server.Now(), slot, true) && server.os.fds[server.handles[slot].fd].DirFd?
    modifies server.os`fds, server.outbox`sent
    ensures server.Valid()
    ensures Flatten(batches) ==
      Statable(server.os.fs, server.handles[slot].path, old(server.os.fds[server.handles[slot].fd].rest))
    ensures forall i :: 0 <= i < |batches| - 1 ==> |batches[i]| == MAX_BATCH
    ensures batches != [] ==> |batches[|batches| - 1]| <= MAX_BATCH
    ensures Delivers(server.Now(), slot, [])
  {
    ghost var all := server.os.fds[server.handles[slot].fd].rest;
    assert all[0..] == all;
    ghost var sent := 0;
    batches := [];
    while true
      invariant server.Valid() && sent <= |all|
      invariant Delivers(server.Now(), slot, all[sent..])
      invariant Batched(server.os.fs, server.handles[slot].path, all, sent, batches)
      decreases |all| - sent
    {
      var batch, sent' := OneBatch(server, slot, all, sent, batches);
      if batch.None? {
        break;
      }
      batches, sent := batches + [batch.value], sent';
    }
    assert all[..sent] == all && all[sent..] == [];
  }

  /** One request, and its place among the batches. */
  method OneBatch(server: Subsystem, slot: nat, ghost all: seq<string>, ghost sent: nat, ghost batches: seq<seq<string>>)
    returns (batch: Option<seq<string>>, ghost sent': nat)
    requires server.Valid() && sent <= |all| && Delivers(server.Now(), slot, all[sent..])
    requires Batched(server.os.fs, server.handles[slot].path, all, sent, batches)
    modifies server.os`fds, server.outbox`sent
    ensures server.Valid() && sent <= sent' <= |all|
    ensures Delivers(server.Now(), slot, all[sent'..])
    ensures server.os.fds == old(server.os.fds)[server.handles[slot].fd := server.os.fds[server.handles[slot].fd]]
    ensures batch.None? ==> sent' == sent == |all|
    ensures batch.Some? ==>
      sent < sent' && Batched(server.os.fs, server.handles[slot].path, all, sent', batches + [batch.value])
  {
    batch, sent' := Batch(server, slot, all, sent);
    if batch.Some? {
      BatchedStep(server.os.fs, server.handles[slot].path, all, sent, batches, sent', batch.value);
    }
  }

  function WithoutDots(names: seq<string>): seq<string> {
    if names == [] then []
    else
      WithoutDots(names[..|names| - 1]) +
      (if IsDots(names[|names| - 1]) then [] else [names[|names| - 1]])
  }

  lemma OneMoreName(order: seq<string>, k: nat)
    requires k < |order|
    ensures WithoutDots(order[..k + 1]) == WithoutDots(order[..k]) + (if IsDots(order[k]) then [] else [order[k]])
  {
    assert order[..k + 1][..k] == order[..k];
  }

  /** r holds each child of the directory at p once, and nothing else. */
  ghost predicate ListsChildren(fs: Fs, p: Path, r: seq<string>) {
    && (forall i, j :: 0 <= i < j < |r| ==> r[i] != r[j])
    && (forall n :: n in r <==> !IsDots(n) && p + [n] in fs.tree)
  }

  lemma {:induction false} WithoutDotsKeeps(names: seq<string>)
    requires forall i, j :: 0 <= i < j < |names| ==> names[i] != names[j]
    ensures var r := WithoutDots(names);
      (forall i, j :: 0 <= i < j < |r| ==> r[i] != r[j]) && forall n :: n in r <==> !IsDots(n) && n in names
  {
    if names != [] {
      var front, last := names[..|names| - 1], names[|names| - 1];
      WithoutDotsKeeps(front);
      assert names == front + [last];
      assert last !in front;
    }
  }

  lemma WholeListing(fs: Fs, p: Path, order: seq<string>)
    requires IsListing(fs, p, order)
    ensures ListsChildren(fs, p, WithoutDots(order))
  {
    WithoutDotsKeeps(order);
    forall n | !IsDots(n) && p + [n] in fs.tree ensures n in order {
      var q := p + [n];
      assert q in fs.tree.Keys && p < q && q[|p|] == n;
    }
  }

  /** After so many requests to a directory of the given size, sent entries have been answered, and the
      end of the directory has been met or not. */
  predicate Requested(requests: nat, sent: nat, size: nat, eof: bool) {
    sent == Min(MAX_BATCH * requests, size) && (eof <==> MAX_BATCH * requests >= size + MAX_BATCH)
  }

  /** One request on a stream whose entries lstat can all see. */
  method StatableBatch(server: Subsystem, slot: nat, ghost order: seq<string>, ghost sent: nat)
    returns (names: Option<seq<string>>, ghost sent': nat)
    requires server.Valid() && sent <= |order| && Delivers(server.Now(), slot, order[sent..])
    requires AllStatable(server.os.fs, server.handles[slot].path, order)
    modifies server.os`fds, server.outbox`sent
    ensures server.Valid() && sent <= sent' <= |order| && Delivers(server.Now(), slot, order[sent'..])
    ensures if names.None? then sent' == sent == |order|
            else sent < sent' == Min(sent + MAX_BATCH, |order|) && names.value == order[sent..sent']
  {
    names, sent' := Batch(server, slot, order, sent);
    if names.Some? {
      WholeBatch(server.os.fs, server.handles[slot].path, order, sent, sent', names.value);
    }
  }

  /** What a directory's buffer holds when given entries have been handed out and sent answered. */
  predicate Holds(order: seq<string>, given: nat, sent: nat, buffer: seq<string>, requests: nat, eof: bool) {
    && given <= sent <= |order| && buffer == order[given..sent]
    && (eof ==> given == |order|) && Requested(requests, sent, |order|, eof)
  }

  lemma HoldsBatch(order: seq<string>, sent: nat, sent': nat, requests: nat, eof: bool, names: Option<seq<string>>)
    requires Holds(order, sent, sent, [], requests, eof)
    requires if names.None? then sent' == sent == |order|
             else sent < sent' == Min(sent + MAX_BATCH, |order|) && names.value == order[sent..sent']
    ensures Holds(order, sent, sent', if names.None? then [] else names.value, requests + 1, names.None?)
  {
    OneMoreRequest(requests, sent, |order|, eof);
  }

  lemma OneMoreRequest(requests: nat, sent: nat, size: nat, eof: bool)
    requires Requested(requests, sent, size, eof)
    ensures Requested(requests + 1, Min(sent + MAX_BATCH, size), size, sent == size)
  {
  }

  /** An open remote directory: names answered by the server and not yet handed out. The request
      numbered failAt, counted from 0, fails and leaves failCode behind as the session's error. */
  class Directory {
    const server: Subsystem
    const slot: nat
    const failAt: nat
    const failCode: nat
    var buffer: seq<string>
    var eof: bool
    var requests: nat
    var lastError: nat             // code of last_error(); 0 reads as no error
    ghost const order: seq<string> // the directory, as the server reads it
    ghost var given: nat           // entries handed out
    ghost var sent: nat            // entries answered by the server

    /** Every request answered so far has brought a full batch, or the last of the entries. */
    ghost predicate Buffered()
      reads this
    {
      requests <= failAt && Holds(order, given, sent, buffer, requests, eof)
    }

    ghost predicate Open()
      reads this, server, server.os
    {
      && server.Valid() && sent <= |order| && Delivers(server.Now(), slot, order[sent..])
      && AllStatable(server.os.fs, server.handles[slot].path, order)
    }

    constructor (server: Subsystem, slot: nat, failAt: nat, failCode: nat)
      requires server.Valid() && IsOpen(server.Now(), slot, true) && server.os.fds[server.handles[slot].fd].DirFd?
      requires AllStatable(server.os.fs, server.handles[slot].path, server.os.fds[server.handles[slot].fd].rest)
      ensures Buffered() && Open() && this.server == server && this.slot == slot && given == 0 && lastError == 0 && !eof
      ensures this.failAt == failAt && this.failCode == failCode
      ensures order == server.os.fds[server.handles[slot].fd].rest
    {
      this.server, this.slot, this.failAt, this.failCode := server, slot, failAt, failCode;
      buffer, eof, requests, lastError := [], false, 0, 0;
      order, given, sent := server.os.fds[server.handles[slot].fd].rest, 0, 0;
    }

    /** Asks the server for another batch: one that is not empty, or EOF. */
    method Refill()
      requires Buffered() && Open() && buffer == [] && given == sent && requests < failAt
      modifies this`buffer, this`sent, this`requests, this`eof, server.os`fds, server.outbox`sent
      ensures Buffered() && Open() && requests == old(requests) + 1
      ensures eof <==> buffer == []
    {
      var names, sent' := StatableBatch(server, slot, order, sent);
      HoldsBatch(order, sent, sent', requests, eof, names);
      requests, eof, sent := requests + 1, names.None?, sent';
      buffer := if names.None? then [] else names.value;
    }

    /** The next entry, or None: at the end, or when the request for more entries fails. */
    method Next() returns (entry: Option<string>)
      requires Buffered() && Open() && lastError == 0
      modifies this, server.os`fds, server.outbox`sent
      ensures Buffered() && Open()
      ensures entry.Some? ==> old(given) < |order| && entry.value == order[old(given)] && given == old(given) + 1
      ensures entry.Some? ==> lastError == 0
      ensures entry.None? ==> given == old(given)
      ensures entry.None? ==> if eof then lastError == 0 else
        lastError == failCode && given == sent && requests == failAt
    {
      if buffer == [] {
        if requests == failAt {
          if !eof {
            lastError := failCode;
          }
          return None;
        }
        Refill();
        if eof {
          return None;
        }
      }
      entry := Some(buffer[0]);
      buffer, given := buffer[1..], given + 1;
    }
  }

  /** What try_list makes of a directory: all of it, when the requests that takes all go through;
      otherwise the failed request's error, or, if that error reads as none, a part. */
  function Collected(order: seq<string>, failAt: nat, failCode: nat): Result<seq<string>> {
    if MAX_BATCH * failAt >= |order| + MAX_BATCH then Ok(WithoutDots(order))
    else if failCode != 0 then Err(failCode)
    else Ok(WithoutDots(order[..Min(MAX_BATCH * failAt, |order|)]))
  }

  /** It fails exactly when a request that the directory takes fails with a code other than 0, and with that
      code: 64 names come with every request, and one more request finds the end. */
  lemma CollectedFailsIff(order: seq<string>, failAt: nat, failCode: nat)
    ensures Collected(order, failAt, failCode).Err? <==> failCode != 0 && 64 * failAt < |order| + 64
    ensures Collected(order, failAt, failCode).Err? ==> Collected(order, failAt, failCode) == Err(failCode)
    ensures 64 * failAt >= |order| + 64 ==> Collected(order, failAt, failCode) == Ok(WithoutDots(order))
  {
  }

  /** What is left out of a listing is "." and "..", and nothing else; the order stays. */
  lemma {:induction false} WithoutDotsMeans(names: seq<string>)
    ensures forall n :: n in WithoutDots(names) <==> n in names && n != "." && n != ".."
    ensures (forall i :: 0 <= i < |names| ==> names[i] != "." && names[i] != "..") ==> WithoutDots(names) == names
  {
    if names != [] {
      var front, last := names[..|names| - 1], names[|names| - 1];
      WithoutDotsMeans(front);
      assert names == front + [last];
    }
  }

  /** A directory read until Next gives nothing has given what Collected says. */
  lemma CollectedFrom(order: seq<string>, given: nat, sent: nat, buffer: seq<string>, requests: nat, eof: bool,
                      failAt: nat, failCode: nat)
    requires Holds(order, given, sent, buffer, requests, eof) && requests <= failAt
    requires eof || (given == sent && requests == failAt)
    ensures Collected(order, failAt, failCode) ==
      if !eof && failCode != 0 then Err(failCode) else Ok(WithoutDots(order[..given]))
  {
    assert eof ==> order[..given] == order;
  }

  /** The loop of try_list over an open directory. */
  method Collect(dir: Directory) returns (result: seq<string>)
    requires dir.Buffered() && dir.Open() && dir.given == 0 && dir.lastError == 0 && !dir.eof
    modifies dir, dir.server.os`fds, dir.server.outbox`sent
    ensures dir.Buffered() && dir.Open()
    ensures result == WithoutDots(dir.order[..dir.given])
    ensures if dir.eof then dir.lastError == 0 else
      dir.lastError == dir.failCode && dir.given == dir.sent && dir.requests == dir.failAt
  {
    result := [];
    while true
      invariant dir.Buffered() && dir.Open() && dir.lastError == 0
      invariant result == WithoutDots(dir.order[..dir.given])
      decreases |dir.order| - dir.given
    {
      var entry := dir.Next();
      if entry.None? {
        break;
      }
      OneMoreName(dir.order, dir.given - 1);
      if IsDots(entry.value) {
        continue;
      }
      result := result + [entry.value];
    }
  }

  /** Reads an open directory to its end and judges the outcome by the error code left behind. */
  method ListOpen(server: Subsystem, slot: nat, failAt: nat, failCode: nat) returns (r: Result<seq<string>>)
    requires server.Valid() && IsOpen(server.Now(), slot, true) && server.os.fds[server.handles[slot].fd].DirFd?
    requires AllStatable(server.os.fs, server.handles[slot].path, server.os.fds[server.handles[slot].fd].rest)
    modifies server.os`fds, server.outbox`sent
    ensures server.Valid()
    ensures r == Collected(old(server.os.fds[server.handles[slot].fd].rest), failAt, failCode)
  {
    var dir := new Directory(server, slot, failAt, failCode);
    var result := Collect(dir);
    CollectedFrom(dir.order, dir.given, dir.sent, dir.buffer, dir.requests, dir.eof, failAt, failCode);
    r := if dir.lastError != 0 then Err(dir.lastError) else Ok(result);
  }

  lemma {:induction false} WithoutDotsAppend(a: seq<string>, b: seq<string>)
    ensures WithoutDots(a + b) == WithoutDots(a) + WithoutDots(b)
  {
    if b == [] {
      assert a + b == a;
    } else {
      assert (a + b)[..|a + b| - 1] == a + b[..|b| - 1];
      WithoutDotsAppend(a, b[..|b| - 1]);
    }
  }

  lemma {:induction false} OnlyDots(names: seq<string>)
    ensures WithoutDots(names) == [] <==> forall i :: 0 <= i < |names| ==> IsDots(names[i])
  {
    if names != [] {
      var front, last := names[..|names| - 1], names[|names| - 1];
      OnlyDots(front);
      assert forall i :: 0 <= i < |front| ==> front[i] == names[i];
      if IsDots(last) {
        assert WithoutDots(names) == WithoutDots(front);
      } else {
        assert WithoutDots(names) == WithoutDots(front) + [last];
      }
    }
  }

  /** A part of a listing is the whole of it exactly when nothing is missing but "." and "..". */
  lemma PartIsWholeIff(fs: Fs, p: Path, order: seq<string>, k: nat)
    requires IsListing(fs, p, order) && k <= |order|
    ensures ListsChildren(fs, p, WithoutDots(order[..k])) <==> WithoutDots(order[k..]) == []
  {
    WholeListing(fs, p, order);
    assert order[..k] + order[k..] == order;
    WithoutDotsAppend(order[..k], order[k..]);
    FrontIsWholeIff(fs, p, WithoutDots(order[..k]), WithoutDots(order[k..]));
  }

  lemma FrontIsWholeIff(fs: Fs, p: Path, front: seq<string>, tail: seq<string>)
    requires ListsChildren(fs, p, front + tail)
    ensures ListsChildren(fs, p, front) <==> tail == []
  {
    var whole := front + tail;
    if tail == [] {
      assert whole == front;
    } else {
      var n := tail[0];
      assert whole[|front|] == n;
      assert n in whole;
      forall i | 0 <= i < |front| ensures front[i] != n {
        assert whole[i] == front[i];
      }
    }
  }

  /** A listing that succeeds is the whole directory exactly when the failed request, if any, had
      nothing but "." and ".." left to bring. */
  lemma CollectedIsWholeIff(fs: Fs, p: Path, order: seq<string>, failAt: nat, failCode: nat)
    requires IsListing(fs, p, order) && Collected(order, failAt, failCode).Ok?
    ensures ListsChildren(fs, p, Collected(order, failAt, failCode).value)
       <==> forall i :: MAX_BATCH * failAt <= i < |order| ==> IsDots(order[i])
  {
    var k := Min(MAX_BATCH * failAt, |order|);
    PartIsWholeIff(fs, p, order, k);
    DotsFrom(order, k);
    assert order[..|order|] == order;
  }

  lemma DotsFrom(order: seq<string>, k: nat)
    requires k <= |order|
    ensures WithoutDots(order[k..]) == [] <==> forall i :: k <= i < |order| ==> IsDots(order[i])
  {
    OnlyDots(order[k..]);
    assert forall i :: k <= i < |order| ==> order[i] == order[k..][i - k];
  }

  predicate IsDirectory(fs: Fs, p: Path) {
    p in fs.tree && fs.tree[p].DirNode?
  }

  /** There is a directory at p, and a slot is free. */
  ghost predicate OpensAsDir(s: Snapshot, p: Path) {
    HasFreeSlot(s.handles) && IsDirectory(s.fs, p)
  }

  /** try_open_directory. */
  method OpenDirectory(server: Subsystem, name: string) returns (slot: Option<nat>)
    requires server.Valid()
    modifies server`handles, server`nextEntry, server.os`fds, server.os`nextFd, server.os`touched, server.os`refused, server.outbox`sent
    ensures server.Valid() && (old(server.os.refused) ==> server.os.refused)
    ensures slot.None? ==> server.handles == old(server.handles)
    ensures slot.Some? ==>
      && server.Target(name).Ok? && IsDirectory(server.os.fs, server.Target(name).value)
      && ReadsDirectory(slot.value, server.Target(name).value, server.Now())
      && server.handles - {slot.value} == old(server.handles)
    ensures server.Target(name).Ok? && !server.os.refused && OpensAsDir(old(server.Now()), server.Target(name).value) ==>
      slot.Some?
  {
    var answer := server.OnOpendir(name);
    if !answer.Handle? {
      return None;
    }
    slot := Some(answer.slot);
    assert server.handles - {answer.slot} == old(server.handles);
  }

  /** try_list: what it returns for the directory as the server reads it, in some order. What is not a directory
      is not listed. */
  method TryList(server: Subsystem, name: string, failAt: nat, failCode: nat) returns (r: Result<seq<string>>)
    requires server.Valid()
    modifies server`handles, server`nextEntry, server`closed, server.os, server.outbox`sent
    ensures server.Valid() && server.os.fs == old(server.os.fs) && server.handles == old(server.handles)
    ensures old(server.os.refused) ==> server.os.refused
    ensures r.Ok? ==> server.Target(name).Ok? && IsDirectory(server.os.fs, server.Target(name).value)
    ensures r.Ok? || (server.Target(name).Ok? && !server.os.refused && OpensAsDir(old(server.Now()), server.Target(name).value)) ==>
      exists order :: IsListing(server.os.fs, server.Target(name).value, order) && r == Collected(order, failAt, failCode)
  {
    var slot := OpenDirectory(server, name);
    if slot.None? {
      return Err(1);
    }
    ghost var order := server.os.fds[server.handles[slot.value].fd].rest;
    r := ListOpen(server, slot.value, failAt, failCode);
    assert IsListing(server.os.fs, server.Target(name).value, order) && r == Collected(order, failAt, failCode);
    var _ := server.OnClose(slot.value);
  }
}
