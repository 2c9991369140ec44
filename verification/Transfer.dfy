/** try_upload and try_download, down to the server's WRITE and READ cases. */
module Transfer {
  import opened Basics
  import opened Posix
  import opened SftpProtocol
  import opened SftpServer

  /** The bytes of the regular file at p. */
  function FileAt(fs: Fs, p: Path): Option<seq<Byte>> {
    if p in fs.tree && fs.tree[p].FileNode? && fs.tree[p].inode in fs.inodes
    then Some(fs.inodes[fs.tree[p].inode]) else None
  }

  /** content is base with the first k bytes of data laid over it. */
  predicate Laid(content: seq<Byte>, base: seq<Byte>, start: nat, data: seq<Byte>, k: int) {
    0 <= k <= |data| && content == Overlay(base, start, data[..k])
  }

  lemma NothingLaid(base: seq<Byte>, start: nat, data: seq<Byte>)
    ensures Laid(base, base, start, data, 0)
  {
  }

  /** What n more bytes of data leave behind. */
  lemma ExtendOverlay(base: seq<Byte>, start: nat, data: seq<Byte>, written: nat, n: nat, before: seq<Byte>, after: seq<Byte>)
    requires written + n <= |data| && Laid(before, base, start, data, written)
    requires after == Overlay(before, start + written, data[written..][..n])
    ensures Laid(after, base, start, data, written + n)
  {
    OverlayAppend(base, start, data[..written], data[written..][..n]);
    assert data[..written] + data[written..][..n] == data[..written + n];
  }

  lemma Consecutive(content: seq<Byte>, start: nat, a: seq<Byte>, b: seq<Byte>)
    requires a == Slice(content, start, |a|) && b == Slice(content, start + |a|, |b|)
    ensures a + b == Slice(content, start, |a + b|)
  {
    SliceAppend(content, start, |a|, |b|);
  }

  /** libssh's side of the data requests: a read is shortened to maxRead; of the k-th write at most
      accepts(k) bytes are sent, and at most maxWrite. */
  datatype Client = Client(maxRead: U32, maxWrite: U32, accepts: nat -> nat)

  predicate Sound(client: Client) {
    client.maxRead >= 1 && client.maxWrite >= 1
  }

  /** Every write sends something. */
  ghost predicate NeverStalls(client: Client) {
    forall k: nat :: client.accepts(k) > 0
  }

  /** Only the contents of one inode have changed. */
  predicate OnlyInode(fs: Fs, fs': Fs, inode: nat) {
    inode in fs.inodes && inode in fs'.inodes && fs' == fs.(inodes := fs.inodes[inode := fs'.inodes[inode]])
  }

  lemma NoInode(fs: Fs, inode: nat)
    requires inode in fs.inodes
    ensures OnlyInode(fs, fs, inode)
  {
    assert fs.inodes[inode := fs.inodes[inode]] == fs.inodes;
  }

  lemma StillOnlyInode(fs: Fs, fs': Fs, fs'': Fs, inode: nat)
    requires OnlyInode(fs, fs', inode) && OnlyInode(fs', fs'', inode)
    ensures OnlyInode(fs, fs'', inode)
  {
    assert fs.inodes[inode := fs'.inodes[inode]][inode := fs''.inodes[inode]] == fs.inodes[inode := fs''.inodes[inode]];
  }

  /** The inode of the regular file at p, if there is one. */
  function InodeAt(fs: Fs, p: Path): set<nat> {
    if p in fs.tree && fs.tree[p].FileNode? then {fs.tree[p].inode} else {}
  }

  /** Only the name p and the file it now names have changed. */
  predicate OnlyFile(fs: Fs, fs': Fs, p: Path) {
    fs'.tree - {p} == fs.tree - {p} && fs'.inodes - InodeAt(fs', p) == fs.inodes - InodeAt(fs', p)
  }

  lemma OpenedOnlyFile(fs: Fs, p: Path, flags: OpenFlags)
    requires WellFormed(fs) && Opened(fs, p, flags).Some?
    ensures OnlyFile(fs, Opened(fs, p, flags).value.0, p)
  {
    var fs' := Opened(fs, p, flags).value.0;
    if p !in fs.tree {
      assert fs.nextInode !in fs.inodes;
      assert fs'.inodes - {fs.nextInode} == fs.inodes - {fs.nextInode};
    }
  }

  lemma SameIsOnlyFile(fs: Fs, p: Path)
    ensures OnlyFile(fs, fs, p)
  {
  }

  lemma ThenOnlyFile(fs: Fs, fs': Fs, fs'': Fs, p: Path, inode: nat)
    requires OnlyFile(fs, fs', p) && p in fs'.tree && fs'.tree[p] == FileNode(inode) && OnlyInode(fs', fs'', inode)
    ensures OnlyFile(fs, fs'', p)
  {
    assert fs''.inodes - {inode} == fs'.inodes - {inode};
  }

  /** An open remote file: sftp::File over libssh's synchronous calls. */
  class File {
    const server: Subsystem
    const slot: nat
    const inode: nat
    const client: Client
    var offset: U64
    var writes: nat

    ghost predicate Valid()
      reads this, server, server.os
    {
      && server.Valid() && IsOpen(server.Now(), slot, false) && Sound(client)
      && server.os.fds[server.handles[slot].fd].FileFd? && server.os.fds[server.handles[slot].fd].inode == inode
      && inode in server.os.fs.inodes
    }

    function Content(): seq<Byte>
      reads server.os
      requires inode in server.os.fs.inodes
    {
      server.os.fs.inodes[inode]
    }

    constructor (server: Subsystem, slot: nat, client: Client)
      requires server.Valid() && IsOpen(server.Now(), slot, false) && Sound(client)
      requires server.os.fds[server.handles[slot].fd].FileFd?
      requires server.os.fds[server.handles[slot].fd].inode in server.os.fs.inodes
      ensures Valid() && this.server == server && this.slot == slot && this.client == client && offset == 0
      ensures inode == server.os.fds[server.handles[slot].fd].inode
    {
      this.server, this.slot, this.client := server, slot, client;
      inode, offset, writes := server.os.FileInode(server.handles[slot].fd), 0, 0;
    }

    /** sftp_read: one request, answered with at most what was asked for. */
    method TryRead(len: nat) returns (r: Result<seq<Byte>>)
      requires Valid()
      modifies this`offset, server.os`refused, server.outbox`sent
      ensures Valid() && (old(server.os.refused) ==> server.os.refused)
      ensures !server.os.refused && CanRead(server.Now(), slot) && old(offset) < TWO_63 ==> r.Ok?
      ensures r.Err? ==> offset == old(offset)
      ensures r.Ok? ==>
        && r.value == Slice(Content(), old(offset), |r.value|) && |r.value| <= len
        && offset == old(offset) + |r.value|
        && (r.value == [] <==> len == 0 || old(offset) >= |Content()|)
    {
      var answer := server.OnRead(slot, offset, Min(len, client.maxRead));
      if answer.Data? {
        offset := offset + |answer.bytes|;
        r := Ok(answer.bytes);
      } else {
        r := if answer == Status(EOF) then Ok([]) else Err(1);
      }
    }

    /** sftp_write: one request, for as much of data as libssh sends. */
    method TryWrite(data: seq<Byte>) returns (r: Result<nat>)
      requires Valid()
      modifies this`offset, this`writes, server.os`fs, server.os`shortWrite, server.os`refused, server.outbox`sent
      ensures Valid() && (old(server.os.refused) ==> server.os.refused)
      ensures !server.os.refused && CanWrite(server.options, server.Now(), slot, old(offset) + |data|) ==> r.Ok?
      ensures OnlyInode(old(server.os.fs), server.os.fs, inode)
      ensures r.Err? ==>
        server.os.fs == old(server.os.fs) && server.os.shortWrite == old(server.os.shortWrite) && offset == old(offset)
      ensures r.Ok? ==>
        && r.value == Min(client.accepts(old(writes)), Min(|data|, client.maxWrite)) && offset == old(offset) + r.value
        && Stored(offset)
        && (!server.os.shortWrite ==>
              !old(server.os.shortWrite) && Content() == Overlay(old(Content()), old(offset), data[..r.value]))
    {
      NoInode(server.os.fs, inode);
      var n := Min(client.accepts(writes), Min(|data|, client.maxWrite));
      writes := writes + 1;
      var answer := server.OnWrite(slot, offset, data[..n]);
      if answer != Status(OK) {
        return Err(1);
      }
      offset := offset + n;
      r := Ok(n);
    }

    /** try_write_all: data is stored at the offset, in as many requests as it takes. */
    method TryWriteAll(data: seq<Byte>) returns (r: Result<()>)
      requires Valid()
      modifies this`offset, this`writes, server.os`fs, server.os`shortWrite, server.os`refused, server.outbox`sent
      ensures Valid() && OnlyInode(old(server.os.fs), server.os.fs, inode) && (old(server.os.refused) ==> server.os.refused)
      ensures !server.os.refused && NeverStalls(client) && CanWrite(server.options, server.Now(), slot, old(offset) + |data|) ==>
        r.Ok?
      ensures old(offset) <= offset <= old(offset) + |data| && (r.Ok? ==> offset == old(offset) + |data|)
      ensures r.Ok? && data != [] ==> Stored(offset)
      ensures !server.os.shortWrite ==>
        !old(server.os.shortWrite) && Laid(Content(), old(Content()), old(offset), data, offset - old(offset))
    {
      ghost var base, start := Content(), offset;
      NothingLaid(base, start, data);
      NoInode(server.os.fs, inode);
      var written := 0;
      while written < |data|
        invariant Valid() && OnlyInode(old(server.os.fs), server.os.fs, inode) && (old(server.os.refused) ==> server.os.refused)
        invariant written <= |data| && offset == start + written
        invariant written > 0 ==> Stored(offset)
        invariant !server.os.shortWrite ==> !old(server.os.shortWrite) && Laid(Content(), base, start, data, written)
      {
        ghost var fs := server.os.fs;
        var n := WriteMore(data, written, base, start);
        StillOnlyInode(old(server.os.fs), fs, server.os.fs, inode);
        if n.Err? {
          return Err(n.code);
        }
        written := written + n.value;
      }
      r := Ok(());
    }

    /** The options allow what has been stored up to end. */
    predicate Stored(end: nat) {
      !server.options.readOnly && (server.options.maxFileSize != 0 ==> end <= server.options.maxFileSize)
    }

    /** One turn of the loop: at least one more byte of data stored, or an error. */
    method WriteMore(data: seq<Byte>, written: nat, ghost base: seq<Byte>, ghost start: nat) returns (r: Result<nat>)
      requires Valid() && written < |data| && offset == start + written
      requires !server.os.shortWrite ==> Laid(Content(), base, start, data, written)
      modifies this`offset, this`writes, server.os`fs, server.os`shortWrite, server.os`refused, server.outbox`sent
      ensures Valid() && OnlyInode(old(server.os.fs), server.os.fs, inode) && (old(server.os.refused) ==> server.os.refused)
      ensures !server.os.refused && NeverStalls(client) && CanWrite(server.options, server.Now(), slot, start + |data|) ==> r.Ok?
      ensures r.Err? ==> offset == start + written
      ensures r.Ok? ==>
        && 1 <= r.value <= |data| - written && offset == start + written + r.value
        && Stored(offset)
      ensures !server.os.shortWrite ==>
        !old(server.os.shortWrite) && Laid(Content(), base, start, data, offset - start)
    {
      var rest := data[written..];
      ghost var before := Content();
      r := TryWrite(rest);
      if r.Ok? {
        if !server.os.shortWrite {
          ExtendOverlay(base, start, data, written, r.value, before, Content());
        }
        if r.value == 0 {
          return Err(1);
        }
      }
    }

    /** try_read_exact: len bytes, or an error when the file ends before that. */
    method TryReadExact(len: nat) returns (r: Result<seq<Byte>>)
      requires Valid()
      modifies this`offset, server.os`refused, server.outbox`sent
      ensures Valid() && (old(server.os.refused) ==> server.os.refused)
      ensures !server.os.refused && CanRead(server.Now(), slot) && |Content()| < TWO_63 && old(offset) + len <= |Content()| ==>
        r.Ok?
      ensures r.Ok? ==> |r.value| == len && r.value == Slice(Content(), old(offset), len) && offset == old(offset) + len
    {
      var got: seq<Byte> := [];
      while |got| < len
        invariant Valid() && |got| <= len && offset == old(offset) + |got|
        invariant old(server.os.refused) ==> server.os.refused
        invariant got == Slice(Content(), old(offset), |got|)
        decreases len - |got|
      {
        var more := ReadMore(got, len, old(offset));
        if more.Err? {
          return more;
        }
        got := more.value;
      }
      r := Ok(got);
    }

    /** One turn of the loop: got, and at least one more byte of the file. */
    method ReadMore(got: seq<Byte>, len: nat, ghost start: nat) returns (r: Result<seq<Byte>>)
      requires Valid() && |got| < len && offset == start + |got| && got == Slice(Content(), start, |got|)
      modifies this`offset, server.os`refused, server.outbox`sent
      ensures Valid() && (old(server.os.refused) ==> server.os.refused)
      ensures !server.os.refused && CanRead(server.Now(), slot) && |Content()| < TWO_63 && start + len <= |Content()| ==> r.Ok?
      ensures r.Ok? ==>
        && |got| < |r.value| <= len && r.value == Slice(Content(), start, |r.value|) && offset == start + |r.value|
    {
      var part := TryRead(len - |got|);
      if part.Err? {
        return part;
      }
      if part.value == [] {
        return Err(1);
      }
      Consecutive(Content(), start, got, part.value);
      r := Ok(got + part.value);
    }
  }

  /** What a transfer in chunks of the given size moves: a chunk size of 0 moves nothing. */
  function Moved(bytes: seq<Byte>, chunk: nat): (r: seq<Byte>)
    ensures r == [] || (chunk >= 1 && r == bytes)
  {
    if chunk == 0 then [] else bytes
  }

  /** What passes through a local stream that fails after limit bytes; the loops do not look at why
      reading stopped, nor at whether writing worked. */
  function Passed(bytes: seq<Byte>, limit: nat): (r: seq<Byte>)
    ensures r <= bytes && |r| <= limit && (|r| < limit ==> r == bytes)
  {
    bytes[..Min(|bytes|, limit)]
  }

  lemma AllIsMovedIff(bytes: seq<Byte>, chunk: nat, limit: nat)
    ensures Passed(Moved(bytes, chunk), limit) == bytes <==> bytes == [] || (chunk >= 1 && |bytes| <= limit)
    ensures Moved(Passed(bytes, limit), chunk) == bytes <==> bytes == [] || (chunk >= 1 && |bytes| <= limit)
  {
    if chunk >= 1 && |bytes| <= limit {
      assert bytes[..|bytes|] == bytes;
    }
  }

  lemma AppendStep(local: seq<Byte>, pos: nat, piece: nat)
    requires pos + piece <= |local|
    ensures Overlay(local[..pos], pos, local[pos..pos + piece]) == local[..pos + piece]
  {
  }

  /** One piece of the local file, stored after the pieces before it. */
  method SendPiece(file: File, local: seq<Byte>, pos: nat, n: nat) returns (r: Result<()>)
    requires file.Valid() && file.offset == pos && 1 <= n && pos + n <= |local|
    requires !file.server.os.shortWrite ==> file.Content() == local[..pos]
    modifies file`offset, file`writes, file.server.os`fs, file.server.os`shortWrite, file.server.os`refused, file.server.outbox`sent
    ensures file.Valid() && OnlyInode(old(file.server.os.fs), file.server.os.fs, file.inode)
    ensures old(file.server.os.refused) ==> file.server.os.refused
    ensures !file.server.os.refused && NeverStalls(file.client)
            && CanWrite(file.server.options, file.server.Now(), file.slot, |local|) ==>
      r.Ok?
    ensures pos <= file.offset <= pos + n && (r.Ok? ==> file.offset == pos + n)
    ensures r.Ok? ==>
      && !file.server.options.readOnly
      && (file.server.options.maxFileSize != 0 ==> pos + n <= file.server.options.maxFileSize)
    ensures !file.server.os.shortWrite ==> !old(file.server.os.shortWrite) && file.Content() == local[..file.offset]
  {
    var piece := local[pos..pos + n];
    r := file.TryWriteAll(piece);
    ghost var stored := file.offset - pos;
    assert piece[..stored] == local[pos..pos + stored];
    AppendStep(local, pos, stored);
  }

  /** The loop of try_upload over what the local stream yields, into an empty remote file. goOn is
      what the progress callback answers, or true without one. */
  method SendLoop(file: File, local: seq<Byte>, chunk: nat, hasProgress: bool) returns (r: Result<nat>)
    requires file.Valid() && file.offset == 0 && file.Content() == []
    modifies file`offset, file`writes, file.server.os`fs, file.server.os`shortWrite, file.server.os`refused, file.server.outbox`sent
    ensures file.Valid() && OnlyInode(old(file.server.os.fs), file.server.os.fs, file.inode)
    ensures old(file.server.os.refused) ==> file.server.os.refused
    ensures !file.server.os.refused && NeverStalls(file.client) && !hasProgress
            && CanWrite(file.server.options, file.server.Now(), file.slot, |local|) ==>
      r.Ok?
    ensures file.offset <= |local|
    ensures !file.server.os.shortWrite ==> file.Content() == local[..file.offset]
    ensures r.Ok? ==> r.value == file.offset == |Moved(local, chunk)|
    ensures r.Ok? && file.server.options.maxFileSize != 0 ==> r.value <= file.server.options.maxFileSize
    ensures r.Ok? && r.value > 0 ==> !file.server.options.readOnly
  {
    NoInode(file.server.os.fs, file.inode);
    var pos, good := 0, true;
    while good
      invariant file.Valid() && OnlyInode(old(file.server.os.fs), file.server.os.fs, file.inode)
      invariant old(file.server.os.refused) ==> file.server.os.refused
      invariant pos <= |local| && file.offset == pos && (!good ==> pos == |local|)
      invariant !file.server.os.shortWrite ==> file.Content() == local[..pos]
      invariant file.server.options.maxFileSize != 0 ==> pos <= file.server.options.maxFileSize
      invariant pos > 0 ==> !file.server.options.readOnly && chunk > 0
      decreases |local| - pos, good
    {
      // ifstream::read clears the stream's good state when it comes up short
      var n := Min(chunk, |local| - pos);
      good := n == chunk;
      if n == 0 {
        break;
      }
      ghost var fs := file.server.os.fs;
      var sent := SendPiece(file, local, pos, n);
      StillOnlyInode(old(file.server.os.fs), fs, file.server.os.fs, file.inode);
      if sent.Err? {
        return Err(sent.code);
      }
      pos := pos + n;
      var goOn: bool := *;
      if hasProgress && !goOn {
        return Err(1);
      }
    }
    r := Ok(pos);
  }

  /** The upload over an open handle on an empty file. */
  method SendOpen(server: Subsystem, slot: nat, local: seq<Byte>, chunk: nat, hasProgress: bool, client: Client)
    returns (r: Result<nat>, ghost stored: nat)
    requires server.Valid() && Sound(client) && IsOpen(server.Now(), slot, false)
    requires var fd := server.os.fds[server.handles[slot].fd];
      fd.FileFd? && fd.inode in server.os.fs.inodes && server.os.fs.inodes[fd.inode] == []
    modifies server.os`fs, server.os`shortWrite, server.os`refused, server.outbox`sent
    ensures server.Valid() && (old(server.os.refused) ==> server.os.refused)
    ensures OnlyInode(old(server.os.fs), server.os.fs, server.os.fds[server.handles[slot].fd].inode)
    ensures !server.os.refused && NeverStalls(client) && !hasProgress
            && CanWrite(server.options, server.Now(), slot, |local|) ==>
      r.Ok?
    ensures var inode := server.os.fds[server.handles[slot].fd].inode;
      inode in server.os.fs.inodes && stored <= |local|
      && (!server.os.shortWrite ==> server.os.fs.inodes[inode] == local[..stored])
    ensures r.Ok? ==> r.value == stored == |Moved(local, chunk)|
    ensures r.Ok? && server.options.maxFileSize != 0 ==> r.value <= server.options.maxFileSize
    ensures r.Ok? && r.value > 0 ==> !server.options.readOnly
  {
    var file := new File(server, slot, client);
    r := SendLoop(file, local, chunk, hasProgress);
    stored := file.offset;
  }

  /** The server's options, its table and its files allow target to be opened for an upload. */
  ghost predicate MayOpen(options: Options, s: Snapshot, target: Path, replace: bool) {
    && !options.readOnly && HasFreeSlot(s.handles)
    && Opened(s.fs, target, OpenFlags(WrOnly, true, replace, !replace, false)).Some?
  }

  /** They allow size bytes to be stored there. */
  ghost predicate MayUpload(options: Options, s: Snapshot, target: Path, size: nat, replace: bool) {
    && MayOpen(options, s, target, replace)
    && (options.maxFileSize == 0 || size <= options.maxFileSize) && size <= OFF_MAX
  }

  /** Nothing on the server has changed but the file the name leads to. */
  predicate OnlyTarget(server: Subsystem, remote: string, before: Fs)
    reads server.os
  {
    server.os.fs == before || (server.Target(remote).Ok? && OnlyFile(before, server.os.fs, server.Target(remote).value))
  }

  /** The handle, if any, is open on the file at the remote path, and that file is empty now. */
  method OpenToSend(server: Subsystem, remote: string, replace: bool, ghost size: nat) returns (slot: Option<nat>)
    requires server.Valid()
    modifies server`handles, server`nextEntry, server.os, server.outbox`sent
    ensures server.Valid() && server.os.shortWrite == old(server.os.shortWrite) && (old(server.os.refused) ==> server.os.refused)
    ensures slot.None? ==> server.handles == old(server.handles)
    ensures OnlyTarget(server, remote, old(server.os.fs))
    ensures slot.Some? ==>
      && server.Target(remote).Ok? && !server.options.readOnly
      && (!replace ==> server.Target(remote).value !in old(server.os.fs.tree))
      && HoldsFile(server.Now(), slot.value, server.Target(remote).value, WrOnly)
      && server.handles - {slot.value} == old(server.handles)
      && FileAt(server.os.fs, server.Target(remote).value) == Some([])
    ensures !server.os.refused && server.Target(remote).Ok?
            && MayOpen(server.options, old(server.Now()), server.Target(remote).value, replace) ==>
      slot.Some?
    ensures slot.Some? && MayUpload(server.options, old(server.Now()), server.Target(remote).value, size, replace) ==>
      CanWrite(server.options, server.Now(), slot.value, size)
  {
    var flags := FXF_WRITE | FXF_CREAT | (if replace then FXF_TRUNC else FXF_EXCL);
    UploadFlags(flags, replace);
    ghost var before := server.os.fs;
    var answer := server.OnOpen(remote, flags);
    if server.os.fs != before {
      OpenedOnlyFile(before, server.Target(remote).value, PosixOpenFlags(flags));
    }
    if !answer.Handle? {
      return None;
    }
    slot := Some(answer.slot);
    assert server.handles - {answer.slot} == old(server.handles);
  }

  /** Slot holds a descriptor, opened for access, of the regular file at p. */
  ghost predicate HoldsFile(s: Snapshot, slot: nat, p: Path, access: Access) {
    && IsOpen(s, slot, false)
    && p in s.fs.tree && s.fs.tree[p].FileNode? && s.fs.tree[p].inode in s.fs.inodes
    && s.fds[s.handles[slot].fd] == FileFd(s.fs.tree[p].inode, access)
  }

  /** Sends local, if it opens, to the remote path; reading it fails after readable bytes. On success the remote file
      holds exactly what was moved, and that is all of local exactly when the local file could be read
      to its end, unless the chunk size is 0. On failure after the open it holds a front part. stored is
      how much of it, if the file was opened. No other file of the server's changes. */
  method TryUpload(server: Subsystem, local: seq<Byte>, opens: bool, readable: nat, remote: string, chunk: nat, replace: bool,
                   hasProgress: bool, client: Client) returns (r: Result<nat>, ghost stored: Option<nat>)
    requires server.Valid() && Sound(client)
    modifies server`handles, server`nextEntry, server`closed, server.os, server.outbox`sent
    ensures server.Valid() && server.handles == old(server.handles) && (old(server.os.refused) ==> server.os.refused)
    ensures r.Ok? ==> server.Target(remote).Ok? && stored == Some(r.value) && r.value == |Moved(Passed(local, readable), chunk)|
    ensures stored.Some? ==> server.Target(remote).Ok? && stored.value <= |local|
    ensures stored.Some? && !server.os.shortWrite ==>
      FileAt(server.os.fs, server.Target(remote).value) == Some(local[..stored.value])
    ensures r.Ok? && !server.os.shortWrite ==>
      (FileAt(server.os.fs, server.Target(remote).value) == Some(local) <==> local == [] || (chunk >= 1 && |local| <= readable))
    ensures r.Ok? ==>
      !server.options.readOnly && (server.options.maxFileSize != 0 ==> r.value <= server.options.maxFileSize)
    ensures r.Ok? && !replace ==> server.Target(remote).value !in old(server.os.fs.tree)
    ensures !opens ==> r.Err? && stored.None? && server.Now() == old(server.Now())
    ensures OnlyTarget(server, remote, old(server.os.fs))
    ensures opens && !server.os.refused && server.Target(remote).Ok?
            && MayOpen(server.options, old(server.Now()), server.Target(remote).value, replace) ==>
      stored.Some?
    ensures opens && !server.os.refused && NeverStalls(client) && !hasProgress && server.Target(remote).Ok?
            && MayUpload(server.options, old(server.Now()), server.Target(remote).value, |local|, replace) ==>
      r.Ok?
  {
    if !opens {
      return Err(1), None;
    }
    var slot := OpenToSend(server, remote, replace, |Passed(local, readable)|);
    if slot.None? {
      return Err(1), None;
    }
    ghost var done, before := 0, server.os.fs;
    r, done := SendOpen(server, slot.value, Passed(local, readable), chunk, hasProgress, client);
    stored := Some(done);
    ghost var target := server.Target(remote).value;
    if before == old(server.os.fs) {
      SameIsOnlyFile(before, target);
    }
    ThenOnlyFile(old(server.os.fs), before, server.os.fs, target, before.tree[target].inode);
    var _ := server.OnClose(slot.value);
    StoredIsAllIff(local, readable, chunk, done);
  }

  lemma StoredIsAllIff(local: seq<Byte>, readable: nat, chunk: nat, stored: nat)
    requires stored <= |Passed(local, readable)|
    ensures Passed(local, readable)[..stored] == local[..stored]
    ensures stored == |Moved(Passed(local, readable), chunk)| ==>
      (local[..stored] == local <==> local == [] || (chunk >= 1 && |local| <= readable))
  {
    AllIsMovedIff(local, chunk, readable);
    assert stored == |local| ==> local[..stored] == local;
  }

  lemma UploadFlags(flags: bv32, replace: bool)
    requires flags == FXF_WRITE | FXF_CREAT | (if replace then FXF_TRUNC else FXF_EXCL)
    ensures AsksToChange(flags)
    ensures PosixOpenFlags(flags) == OpenFlags(WrOnly, true, replace, !replace, false)
  {
  }

  lemma DownloadFlags()
    ensures !AsksToChange(FXF_READ) && PosixOpenFlags(FXF_READ) == OpenFlags(RdOnly, false, false, false, false)
  {
  }

  /** The loop of try_download: reads until an empty answer. total counts what was received; out is what
      the local file, which takes no more than room bytes, holds of it. */
  method ReceiveLoop(file: File, chunk: nat, hasProgress: bool, room: nat) returns (r: Result<nat>, total: nat, out: seq<Byte>)
    requires file.Valid() && file.offset == 0
    modifies file`offset, file.server.os`refused, file.server.outbox`sent
    ensures file.Valid() && (old(file.server.os.refused) ==> file.server.os.refused)
    ensures !file.server.os.refused && !hasProgress && CanRead(file.server.Now(), file.slot) && |file.Content()| < TWO_63 ==>
      r.Ok?
    ensures total <= |file.Content()| && out == Passed(file.Content()[..total], room)
    ensures r.Ok? ==> r.value == total == |Moved(file.Content(), chunk)|
  {
    total, out := 0, [];
    ghost var content := file.Content();
    while true
      invariant file.Valid() && content == file.Content() && file.offset == total <= |content|
      invariant old(file.server.os.refused) ==> file.server.os.refused
      invariant out == Passed(content[..total], room)
      invariant chunk == 0 ==> total == 0
      decreases |content| - total
    {
      var part := file.TryRead(chunk);
      if part.Err? {
        return Err(part.code), total, out;
      }
      if part.value == [] {
        break;
      }
      PassedAppend(content, total, part.value, room);
      out := out + Passed(part.value, room - |out|);
      total := total + |part.value|;
      var goOn: bool := *;
      if hasProgress && !goOn {
        return Err(1), total, out;
      }
    }
    r := Ok(total);
  }

  /** The local file after one more piece: once it is full, nothing more goes in. */
  lemma PassedAppend(content: seq<Byte>, total: nat, part: seq<Byte>, room: nat)
    requires total + |part| <= |content| && part == Slice(content, total, |part|)
    ensures |Passed(content[..total], room)| <= room
    ensures Passed(content[..total + |part|], room)
         == Passed(content[..total], room) + Passed(part, room - |Passed(content[..total], room)|)
  {
    assert content[..total + |part|] == content[..total] + part;
  }

  /** Reads an open handle to the end; one that turns out to be a directory fails its first read. */
  method FetchOpen(server: Subsystem, slot: nat, chunk: nat, hasProgress: bool, room: nat, client: Client)
    returns (r: Result<nat>, total: nat, out: seq<Byte>)
    requires server.Valid() && Sound(client) && IsOpen(server.Now(), slot, false)
    requires var fd := server.os.fds[server.handles[slot].fd];
      fd.RawDirFd? || (fd.FileFd? && fd.inode in server.os.fs.inodes)
    modifies server.os`refused, server.outbox`sent
    ensures server.Valid() && (old(server.os.refused) ==> server.os.refused)
    ensures !server.os.refused && !hasProgress && CanRead(server.Now(), slot)
            && |server.os.fs.inodes[server.os.fds[server.handles[slot].fd].inode]| < TWO_63 ==>
      r.Ok?
    ensures server.os.fds[server.handles[slot].fd].RawDirFd? ==> r.Err? && total == 0 && out == []
    ensures server.os.fds[server.handles[slot].fd].FileFd? ==>
      var content := server.os.fs.inodes[server.os.fds[server.handles[slot].fd].inode];
      && total <= |content| && out == Passed(content[..total], room)
      && (r.Ok? ==> r.value == total == |Moved(content, chunk)|)
  {
    if server.os.IsPlainDir(server.handles[slot].fd) {
      return Err(1), 0, [];
    }
    var file := new File(server, slot, client);
    r, total, out := ReceiveLoop(file, chunk, hasProgress, room);
  }

  /** The handle, if any, is open on the file at the remote path, or on a directory there. */
  method OpenToFetch(server: Subsystem, remote: string) returns (slot: Option<nat>)
    requires server.Valid()
    modifies server`handles, server`nextEntry, server.os, server.outbox`sent
    ensures server.Valid() && server.os.fs == old(server.os.fs) && server.os.shortWrite == old(server.os.shortWrite)
    ensures old(server.os.refused) ==> server.os.refused
    ensures slot.None? ==> server.handles == old(server.handles)
    ensures slot.Some? ==>
      && server.Target(remote).Ok? && IsOpen(server.Now(), slot.value, false)
      && server.handles - {slot.value} == old(server.handles)
      && (HoldsFile(server.Now(), slot.value, server.Target(remote).value, RdOnly)
          || (server.os.fds[server.handles[slot.value].fd].RawDirFd?
              && FileAt(server.os.fs, server.Target(remote).value).None?))
    ensures !server.os.refused && HasFreeSlot(old(server.handles))
            && server.Target(remote).Ok? && FileAt(server.os.fs, server.Target(remote).value).Some? ==>
      slot.Some?
  {
    DownloadFlags();
    var answer := server.OnOpen(remote, FXF_READ);
    if !answer.Handle? {
      return None;
    }
    slot := Some(answer.slot);
    assert server.handles - {answer.slot} == old(server.handles);
  }

  /** Fetches the remote file into a fresh local one, if that opens, which takes no more than room bytes; out is what the
      local file holds. On success that is the whole remote file exactly when there was
      room for it, unless the chunk size is 0: the loop does not look at whether its writes worked. */
  method TryDownload(server: Subsystem, remote: string, present: bool, replace: bool, chunk: nat, hasProgress: bool,
                     opens: bool, room: nat, client: Client) returns (r: Result<nat>, out: Option<seq<Byte>>)
    requires server.Valid() && Sound(client)
    modifies server`handles, server`nextEntry, server`closed, server.os, server.outbox`sent
    ensures server.Valid() && server.os.fs == old(server.os.fs) && server.os.shortWrite == old(server.os.shortWrite)
    ensures server.handles == old(server.handles) && (old(server.os.refused) ==> server.os.refused)
    ensures opens && !server.os.refused && !hasProgress && (replace || !present) && HasFreeSlot(server.handles)
            && server.Target(remote).Ok? && FileAt(server.os.fs, server.Target(remote).value).Some?
            && |FileAt(server.os.fs, server.Target(remote).value).value| < TWO_63 ==>
      r.Ok?
    ensures !opens || (present && !replace) ==> r.Err? && out.None?
    ensures opens && !server.os.refused && (replace || !present) && HasFreeSlot(server.handles)
            && server.Target(remote).Ok? && FileAt(server.os.fs, server.Target(remote).value).Some? ==>
      out.Some?
    ensures r.Ok? ==>
      && server.Target(remote).Ok? && FileAt(server.os.fs, server.Target(remote).value).Some? && out.Some?
      && Downloaded(FileAt(server.os.fs, server.Target(remote).value).value, chunk, room, r.value, out.value)
    ensures r.Err? && out.Some? ==>
      server.Target(remote).Ok? && FrontOf(FileAt(server.os.fs, server.Target(remote).value), out.value)
  {
    if !replace && present {
      return Err(1), None;
    }
    var slot := OpenToFetch(server, remote);
    if slot.None? {
      return Err(1), None;
    }
    if !opens {
      var _ := server.OnClose(slot.value);
      return Err(1), None;
    }
    ghost var content := FileAt(server.os.fs, server.Target(remote).value);
    var total, bytes;
    r, total, bytes := FetchOpen(server, slot.value, chunk, hasProgress, room, client);
    out := Some(bytes);
    if content.Some? {
      ReceivedIsAllIff(content.value, chunk, room, total);
    }
    var _ := server.OnClose(slot.value);
  }

  /** A download that has succeeded with count n left out in the local file. */
  predicate Downloaded(content: seq<Byte>, chunk: nat, room: nat, n: nat, out: seq<Byte>) {
    && n == |Moved(content, chunk)| && out == Passed(Moved(content, chunk), room)
    && (out == content <==> content == [] || (chunk >= 1 && |content| <= room))
  }

  /** out is a front part of the file, of nothing if there is none. */
  predicate FrontOf(content: Option<seq<Byte>>, out: seq<Byte>) {
    out <= if content.Some? then content.value else []
  }

  lemma ReceivedIsAllIff(content: seq<Byte>, chunk: nat, room: nat, total: nat)
    requires total <= |content|
    ensures FrontOf(Some(content), Passed(content[..total], room))
    ensures total == |Moved(content, chunk)| ==> Downloaded(content, chunk, room, total, Passed(content[..total], room))
  {
    AllIsMovedIff(content, chunk, room);
    assert total == |content| ==> content[..total] == content;
  }

  /** Upload then download. When both succeed and no store was short, what comes back is what was sent,
      and both report its length, exactly when the contents are empty, or both chunk sizes are at least 1,
      the local file could be read and there was room for the copy. Both do succeed unless the server's
      options, its table or its files stand in the way of the upload, a call of the operating system is
      refused, libssh sends none of what it is given, or one of the local files does not open. */
  method RoundTrip(server: Subsystem, local: seq<Byte>, opensIn: bool, readable: nat, remote: string, up: nat, down: nat,
                   opensOut: bool, room: nat, client: Client)
    returns (sent: Result<nat>, received: Result<nat>, out: Option<seq<Byte>>)
    requires server.Valid() && Sound(client)
    modifies server`handles, server`nextEntry, server`closed, server.os, server.outbox`sent
    ensures server.Valid() && server.handles == old(server.handles) && OnlyTarget(server, remote, old(server.os.fs))
    ensures sent.Ok? && received.Ok? && !server.os.shortWrite ==>
      && out.Some?
      && (out == Some(local) && sent.value == |local| && received.value == |local|
          <==> local == [] || (up >= 1 && down >= 1 && |local| <= readable && |local| <= room))
    ensures (!opensIn ==> sent.Err?) && (!opensOut ==> received.Err?)
    ensures opensIn && opensOut && !server.os.refused && !server.os.shortWrite && NeverStalls(client) && server.Target(remote).Ok?
            && MayUpload(server.options, old(server.Now()), server.Target(remote).value, |local|, true) ==>
      sent.Ok? && received.Ok?
  {
    ghost var stored;
    sent, stored := TryUpload(server, local, opensIn, readable, remote, up, true, false, client);
    received, out := TryDownload(server, remote, false, true, down, false, opensOut, room, client);
    assert local[..|local|] == local && local[..0] == [];
  }
}
