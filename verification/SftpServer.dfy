/** SftpSubsystemHandler::try_serve: the request loop of the SFTP server, its handle table and its
    calls into the file system. */
module SftpServer {
  import opened Basics
  import opened SftpPath
  import opened Posix
  import opened SftpProtocol

  // ---- the handle table ----

  ghost function FdsOf(handles: Table): set<nat> {
    set s | s in handles :: handles[s].fd
  }

  /** No other slot has its descriptor or its record. */
  ghost predicate Alone(slot: nat, handles: Table) {
    slot in handles ==>
      forall t :: t in handles && t != slot ==>
        handles[t].fd != handles[slot].fd && handles[t].entry != handles[slot].entry
  }

  /** A slot in use holds an open descriptor of its own, of the right kind, opened under the root, and a record
      of its own that has been allocated and not closed. */
  ghost predicate SlotOk(slot: nat, handles: Table, fds: map<nat, Fd>, nextEntry: nat, closed: set<nat>, root: Path) {
    && Alone(slot, handles)
    && (slot in handles ==>
          var h := handles[slot];
          && slot < MAX_HANDLES && h.fd in fds && h.isDir == fds[h.fd].DirFd? && root <= h.path && IsNormal(h.path)
          && h.entry < nextEntry && h.entry !in closed)
  }

  /** An open descriptor is in some slot. */
  ghost predicate FdOk(d: nat, handles: Table, fds: map<nat, Fd>) {
    d in fds ==> exists s :: s in handles && handles[s].fd == d
  }

  /** A record ever allocated is in some slot, or closed. */
  ghost predicate RecordOk(e: nat, handles: Table, nextEntry: nat, closed: set<nat>) {
    && (e in closed ==> e < nextEntry)
    && (e < nextEntry && e !in closed ==> exists s :: s in handles && handles[s].entry == e)
  }

  /** Every open descriptor belongs to exactly one slot, and every record ever allocated is either
      in one slot or closed, never both. */
  ghost predicate TableOk(handles: Table, fds: map<nat, Fd>, nextEntry: nat, closed: set<nat>, root: Path) {
    && (forall s :: SlotOk(s, handles, fds, nextEntry, closed, root))
    && (forall d :: FdOk(d, handles, fds))
    && (forall e :: RecordOk(e, handles, nextEntry, closed))
  }

  /** What this says of the table as a whole. */
  lemma TableMeaning(handles: Table, fds: map<nat, Fd>, nextEntry: nat, closed: set<nat>, root: Path)
    requires TableOk(handles, fds, nextEntry, closed, root)
    ensures fds.Keys == FdsOf(handles)
    ensures forall s :: Alone(s, handles)
    ensures forall s :: s in handles ==> handles[s].entry < nextEntry && handles[s].entry !in closed
  {
    forall s | s in handles
      ensures handles[s].fd in fds && handles[s].entry < nextEntry && handles[s].entry !in closed
    {
      assert SlotOk(s, handles, fds, nextEntry, closed, root);
    }
    forall s: nat ensures Alone(s, handles) {
      assert SlotOk(s, handles, fds, nextEntry, closed, root);
    }
    forall d | d in fds ensures d in FdsOf(handles) {
      assert FdOk(d, handles, fds);
    }
  }

  lemma TableAdd(handles: Table, fds: map<nat, Fd>, nextEntry: nat, closed: set<nat>, root: Path,
                 slot: nat, d: nat, fd: Fd, path: Path)
    requires TableOk(handles, fds, nextEntry, closed, root)
    requires slot < MAX_HANDLES && slot !in handles && d !in fds && root <= path && IsNormal(path)
    ensures TableOk(handles[slot := HandleEntry(nextEntry, fd.DirFd?, d, path)], fds[d := fd], nextEntry + 1, closed, root)
  {
    var h := HandleEntry(nextEntry, fd.DirFd?, d, path);
    var handles', fds', next := handles[slot := h], fds[d := fd], nextEntry + 1;
    TableMeaning(handles, fds, nextEntry, closed, root);
    forall s: nat ensures SlotOk(s, handles', fds', next, closed, root) {
      assert SlotOk(s, handles, fds, nextEntry, closed, root);
      assert RecordOk(nextEntry, handles, nextEntry, closed);
    }
    forall x: nat ensures FdOk(x, handles', fds') {
      assert FdOk(x, handles, fds);
      HandlesKept(handles, slot, h);
    }
    forall e: nat ensures RecordOk(e, handles', next, closed) {
      assert RecordOk(e, handles, nextEntry, closed);
      HandlesKept(handles, slot, h);
    }
  }

  lemma HandlesKept(handles: Table, slot: nat, h: HandleEntry)
    requires slot !in handles
    ensures var handles' := handles[slot := h];
      slot in handles' && handles'[slot] == h && forall s :: s in handles ==> s in handles' && handles'[s] == handles[s]
  {
  }

  lemma TableRemove(handles: Table, fds: map<nat, Fd>, nextEntry: nat, closed: set<nat>, root: Path, slot: nat)
    requires TableOk(handles, fds, nextEntry, closed, root) && slot in handles
    ensures TableOk(handles - {slot}, fds - {handles[slot].fd}, nextEntry, closed + {handles[slot].entry}, root)
  {
    var h := handles[slot];
    var handles', fds' := handles - {slot}, fds - {h.fd};
    assert SlotOk(slot, handles, fds, nextEntry, closed, root);
    forall s: nat ensures SlotOk(s, handles', fds', nextEntry, closed + {h.entry}, root) {
      assert SlotOk(s, handles, fds, nextEntry, closed, root);
    }
    forall x: nat ensures FdOk(x, handles', fds') {
      assert FdOk(x, handles, fds);
      if x in fds' {
        var s :| s in handles && handles[s].fd == x;
        assert s in handles' && handles'[s].fd == x;
      }
    }
    forall e: nat ensures RecordOk(e, handles', nextEntry, closed + {h.entry}) {
      assert RecordOk(e, handles, nextEntry, closed);
      if e < nextEntry && e !in closed && e != h.entry {
        var s :| s in handles && handles[s].entry == e;
        assert s in handles' && handles'[s].entry == e;
      }
    }
  }

  lemma TableReaddir(handles: Table, fds: map<nat, Fd>, nextEntry: nat, closed: set<nat>, root: Path,
                     d: nat, rest: seq<string>)
    requires TableOk(handles, fds, nextEntry, closed, root) && d in fds && fds[d].DirFd?
    ensures TableOk(handles, fds[d := Reading(fds[d], rest)], nextEntry, closed, root)
  {
    var fds' := fds[d := Reading(fds[d], rest)];
    forall s: nat ensures SlotOk(s, handles, fds', nextEntry, closed, root) {
      assert SlotOk(s, handles, fds, nextEntry, closed, root);
    }
    forall x: nat ensures FdOk(x, handles, fds') {
      assert FdOk(x, handles, fds);
    }
  }

  // ---- the file system ----

  predicate SizeOk(inode: nat, initial: Fs, fs: Fs, cap: nat) {
    inode in fs.inodes ==> |fs.inodes[inode]| <= Max(cap, if inode in initial.inodes then |initial.inodes[inode]| else 0)
  }

  /** No file has grown past the cap, unless it was longer to begin with. */
  ghost predicate SizesBounded(initial: Fs, fs: Fs, cap: nat) {
    forall i :: SizeOk(i, initial, fs, cap)
  }

  /** Truncating and creating do not lengthen any file. */
  lemma OpenKeepsSizes(initial: Fs, fs: Fs, p: Path, flags: OpenFlags, cap: nat)
    requires WellFormed(fs) && SizesBounded(initial, fs, cap) && Opened(fs, p, flags).Some?
    ensures SizesBounded(initial, Opened(fs, p, flags).value.0, cap)
  {
    var fs' := Opened(fs, p, flags).value.0;
    forall i ensures SizeOk(i, initial, fs', cap) {
      assert SizeOk(i, initial, fs, cap);
      assert i in fs'.inodes ==> fs'.inodes[i] == [] || (i in fs.inodes && fs'.inodes[i] == fs.inodes[i]);
    }
  }

  /** A write that ends within the cap leaves every file within its bound. */
  lemma WriteKeepsSizes(initial: Fs, fs: Fs, inode: nat, offset: nat, data: seq<Byte>, cap: nat)
    requires SizesBounded(initial, fs, cap) && inode in fs.inodes && offset + |data| <= cap
    ensures SizesBounded(initial, fs.(inodes := fs.inodes[inode := Overlay(fs.inodes[inode], offset, data)]), cap)
  {
    var fs' := fs.(inodes := fs.inodes[inode := Overlay(fs.inodes[inode], offset, data)]);
    forall i ensures SizeOk(i, initial, fs', cap) {
      assert SizeOk(i, initial, fs, cap);
    }
  }

  /** Changing names leaves every file as long as it is. */
  lemma NamesKeepSizes(initial: Fs, fs: Fs, fs': Fs, cap: nat)
    requires SizesBounded(initial, fs, cap) && fs'.inodes == fs.inodes
    ensures SizesBounded(initial, fs', cap)
  {
    forall i ensures SizeOk(i, initial, fs', cap) {
      assert SizeOk(i, initial, fs, cap);
    }
  }

  ghost predicate PathsConfined(root: Path, touched: set<Path>) {
    forall p :: p in touched ==> root <= p && IsNormal(p)
  }

  /** The server's end of the channel: the message being handled, and every reply sent, in order. */
  class Outbox {
    var current: nat
    var sent: seq<Reply>

    constructor ()
      ensures sent == []
    {
      current, sent := 0, [];
    }

    /** sftp_reply_status, sftp_reply_handle, sftp_reply_data, sftp_reply_names, sftp_reply_attr. */
    method Send(answer: Answer)
      modifies this`sent
      ensures sent == old(sent) + [Reply(current, answer)]
    {
      sent := sent + [Reply(current, answer)];
    }
  }

  class Subsystem {
    const options: Options
    const os: Os
    const outbox: Outbox
    var handles: Table
    var nextEntry: nat
    ghost var closed: set<nat>      // entries whose handle has been closed
    ghost const initial: Fs

    ghost predicate Valid()
      reads this, os
    {
      NoSlash(options.root) && os.Valid() && Intact()
    }

    /** What the server keeps of its table, its paths and its files. */
    ghost predicate Intact()
      reads this, os
    {
      && TableOk(handles, os.fds, nextEntry, closed, Canonical(options.root))
      && PathsConfined(Canonical(options.root), os.touched)
      && Permitted(os.fs)
    }

    /** What the options promise of the files: untouched, or within the cap. */
    ghost predicate Permitted(fs: Fs) {
      && (options.readOnly ==> fs == initial)
      && (options.maxFileSize != 0 ==> SizesBounded(initial, fs, options.maxFileSize))
    }

    ghost function Now(): Snapshot
      reads this, os
    {
      Snapshot(os.fs, os.fds, handles, os.refused, os.shortWrite)
    }

    lemma OpenIsPermitted(fs: Fs, path: Path, flags: bv32)
      requires WellFormed(fs) && Permitted(fs) && !(options.readOnly && AsksToChange(flags))
      requires Opened(fs, path, PosixOpenFlags(flags)).Some?
      ensures Permitted(Opened(fs, path, PosixOpenFlags(flags)).value.0)
    {
      if !AsksToChange(flags) {
        ReadOnlyOpenKeepsFs(fs, path, flags);
      }
      if options.maxFileSize != 0 {
        OpenKeepsSizes(initial, fs, path, PosixOpenFlags(flags), options.maxFileSize);
      }
    }

    /** Exactly one reply has been sent: this answer to the current message. */
    twostate predicate Replied(answer: Answer)
      reads outbox
    {
      outbox.sent == old(outbox.sent) + [Reply(outbox.current, answer)]
    }

    constructor (options: Options, os: Os)
      requires NoSlash(options.root) && os.Valid() && os.fds == map[] && os.touched == {}
      ensures Valid() && handles == map[] && closed == {} && nextEntry == 0
      ensures this.options == options && this.os == os && initial == os.fs && fresh(outbox) && outbox.sent == []
    {
      this.options, this.os := options, os;
      outbox := new Outbox();
      handles, nextEntry, closed, initial := map[], 0, {}, os.fs;
    }

    method Answered(a: Answer) returns (answer: Answer)
      modifies outbox`sent
      ensures answer == a && Replied(answer)
    {
      outbox.Send(a);
      answer := a;
    }

    function Target(name: string): Result<Path> {
      SftpProtocol.Target(options, name)
    }

    lemma TargetConfined(name: string)
      requires Valid()
      ensures var r := Target(name); r.Ok? ==>
        && Canonical(options.root) <= r.value && IsNormal(r.value)
        && PathsConfined(Canonical(options.root), os.touched + {r.value})
    {
      ResolveStaysUnderRoot(options.root, name);
    }

    /** sftp_handle_alloc, with any free slot; None exactly when the table is full. */
    method AllocHandle(d: nat, isDir: bool, path: Path) returns (slot: Option<nat>)
      modifies this`handles, this`nextEntry
      ensures slot.Some? <==> HasFreeSlot(old(handles))
      ensures slot.None? ==> handles == old(handles)
      ensures slot.Some? ==>
        && slot.value < MAX_HANDLES && slot.value !in old(handles)
        && handles == old(handles)[slot.value := HandleEntry(old(nextEntry), isDir, d, path)]
      ensures nextEntry == old(nextEntry) + (if slot.Some? then 1 else 0)
    {
      if s: nat :| s < MAX_HANDLES && s !in handles {
        handles := handles[s := HandleEntry(nextEntry, isDir, d, path)];
        nextEntry := nextEntry + 1;
        slot := Some(s);
      } else {
        slot := None;
      }
    }

    // ---- names ----

    method OnRealpath(name: string) returns (answer: Answer)
      requires Valid()
      modifies os`touched, os`refused, outbox`sent
      ensures Valid() && Replied(answer)
      ensures RealpathStep(options, name, answer, old(Now()), Now())
    {
      var target := Target(name);
      TargetConfined(name);
      if target.Err? {
        answer := Answered(Status(NO_SUCH_FILE));
        return;
      }
      var _ := os.Lstat(target.value);
      answer := Answered(Name(ToClientPath(options.root, target.value)));
    }

    method OnStat(name: string) returns (answer: Answer)
      requires Valid()
      modifies os`touched, os`refused, outbox`sent
      ensures Valid() && Replied(answer)
      ensures StatStep(options, name, answer, old(Now()), Now())
    {
      var target := Target(name);
      TargetConfined(name);
      if target.Err? {
        answer := Answered(Status(NO_SUCH_FILE));
        return;
      }
      var node := os.Lstat(target.value);
      answer := Answered(if node.None? then Status(NO_SUCH_FILE) else Attrs(node.value));
    }

    method OnReadlink(name: string) returns (answer: Answer)
      requires Valid()
      modifies os`touched, os`refused, outbox`sent
      ensures Valid() && Replied(answer)
      ensures ReadlinkStep(options, name, answer, old(Now()), Now())
    {
      var target := Target(name);
      TargetConfined(name);
      if target.Err? {
        answer := Answered(Status(NO_SUCH_FILE));
        return;
      }
      var node := os.Lstat(target.value);
      answer := Answered(if node.Some? && node.value.LinkNode? then Name(node.value.target) else Status(NO_SUCH_FILE));
    }

    /** The call that changes names, and its reply. */
    method ChangeNames(paths: set<Path>, next: Option<Fs>, refusal: Code) returns (answer: Answer)
      requires Valid() && !options.readOnly && refusal != OK && refusal != PERMISSION_DENIED
      requires PathsConfined(Canonical(options.root), os.touched + paths)
      requires next.Some? ==> WellFormed(next.value) && next.value.inodes == os.fs.inodes
      modifies os`fs, os`touched, os`refused, outbox`sent
      ensures Valid() && Replied(answer)
      ensures NamesStep(options, next, refusal, answer, old(Now()), Now())
    {
      if options.maxFileSize != 0 && next.Some? {
        NamesKeepSizes(initial, os.fs, next.value, options.maxFileSize);
      }
      var ok := os.Change(paths, next);
      answer := Answered(Status(if ok then OK else refusal));
    }

    method OnRemove(name: string) returns (answer: Answer)
      requires Valid()
      modifies os`fs, os`touched, os`refused, outbox`sent
      ensures Valid() && Replied(answer)
      ensures NamesStep(options, old(TreeAfter(options, os.fs, Remove(name))), NO_SUCH_FILE, answer, old(Now()), Now())
    {
      if options.readOnly {
        answer := Answered(Status(PERMISSION_DENIED));
        return;
      }
      var target := Target(name);
      TargetConfined(name);
      if target.Err? {
        answer := Answered(Status(NO_SUCH_FILE));
        return;
      }
      answer := ChangeNames({target.value}, Unlinked(os.fs, target.value), NO_SUCH_FILE);
    }

    method OnMkdir(name: string) returns (answer: Answer)
      requires Valid()
      modifies os`fs, os`touched, os`refused, outbox`sent
      ensures Valid() && Replied(answer)
      ensures NamesStep(options, old(TreeAfter(options, os.fs, Mkdir(name))), FAILURE, answer, old(Now()), Now())
    {
      if options.readOnly {
        answer := Answered(Status(PERMISSION_DENIED));
        return;
      }
      var target := Target(name);
      TargetConfined(name);
      if target.Err? {
        answer := Answered(Status(FAILURE));
        return;
      }
      answer := ChangeNames({target.value}, MadeDir(os.fs, target.value), FAILURE);
    }

    method OnRmdir(name: string) returns (answer: Answer)
      requires Valid()
      modifies os`fs, os`touched, os`refused, outbox`sent
      ensures Valid() && Replied(answer)
      ensures NamesStep(options, old(TreeAfter(options, os.fs, Rmdir(name))), FAILURE, answer, old(Now()), Now())
    {
      if options.readOnly {
        answer := Answered(Status(PERMISSION_DENIED));
        return;
      }
      var target := Target(name);
      TargetConfined(name);
      if target.Err? {
        answer := Answered(Status(FAILURE));
        return;
      }
      answer := ChangeNames({target.value}, RemovedDir(os.fs, target.value), FAILURE);
    }

    method OnRename(name: string, newName: string) returns (answer: Answer)
      requires Valid()
      modifies os`fs, os`touched, os`refused, outbox`sent
      ensures Valid() && Replied(answer)
      ensures NamesStep(options, old(TreeAfter(options, os.fs, Rename(name, newName))), FAILURE, answer, old(Now()), Now())
    {
      if options.readOnly {
        answer := Answered(Status(PERMISSION_DENIED));
        return;
      }
      var from, to := Target(name), Target(newName);
      TargetConfined(name);
      TargetConfined(newName);
      if from.Err? || to.Err? {
        answer := Answered(Status(FAILURE));
        return;
      }
      RenamedIsWellFormed(os.fs, from.value, to.value);
      answer := ChangeNames({from.value, to.value}, Renamed(os.fs, from.value, to.value), FAILURE);
    }

    /** The target is stored as the client sent it; only the link's own name is resolved. */
    method OnSymlink(target: string, link: string) returns (answer: Answer)
      requires Valid()
      modifies os`fs, os`touched, os`refused, outbox`sent
      ensures Valid() && Replied(answer)
      ensures NamesStep(options, old(TreeAfter(options, os.fs, Symlink(target, link))), FAILURE, answer, old(Now()), Now())
    {
      if options.readOnly {
        answer := Answered(Status(PERMISSION_DENIED));
        return;
      }
      var path := Target(link);
      TargetConfined(link);
      if path.Err? {
        answer := Answered(Status(FAILURE));
        return;
      }
      answer := ChangeNames({path.value}, Symlinked(os.fs, target, path.value), FAILURE);
    }

    // ---- handles ----

    /** Puts a descriptor just opened into the table, or closes it again; and replies. */
    method Install(d: nat, path: Path, ghost before: map<nat, Fd>, ghost fd: Fd) returns (answer: Answer)
      requires NoSlash(options.root) && os.Valid() && d !in before && os.fds == before[d := fd]
      requires TableOk(handles, before, nextEntry, closed, Canonical(options.root))
      requires Canonical(options.root) <= path && IsNormal(path)
      modifies this`handles, this`nextEntry, os`fds, outbox`sent
      ensures TableOk(handles, os.fds, nextEntry, closed, Canonical(options.root)) && os.Valid() && Replied(answer)
      ensures answer.Handle? <==> HasFreeSlot(old(handles))
      ensures answer.Handle? ==>
        && answer.slot !in old(handles) && os.fds == old(os.fds)
        && (forall s :: s in old(handles) ==> old(handles[s].entry) != old(nextEntry))
        && handles == old(handles)[answer.slot := HandleEntry(old(nextEntry), fd.DirFd?, d, path)]
      ensures !answer.Handle? ==> answer == Status(FAILURE) && handles == old(handles) && os.fds == before
    {
      var isDir := os.IsDirStream(d);
      var slot := AllocHandle(d, isDir, path);
      if slot.None? {
        AddThenRemove(before, d, fd);
        os.Close(d);
        answer := Answered(Status(FAILURE));
        return;
      }
      TableMeaning(old(handles), before, old(nextEntry), closed, Canonical(options.root));
      TableAdd(old(handles), before, old(nextEntry), closed, Canonical(options.root), slot.value, d, fd, path);
      answer := Answered(Handle(slot.value));
    }

    method OnOpen(name: string, flags: bv32) returns (answer: Answer)
      requires Valid()
      modifies this`handles, this`nextEntry, os`fs, os`fds, os`nextFd, os`touched, os`refused, outbox`sent
      ensures Valid() && Replied(answer)
      ensures OpenStep(options, name, flags, answer, old(Now()), Now())
    {
      if AsksToChange(flags) && options.readOnly {
        answer := Answered(Status(PERMISSION_DENIED));
        return;
      }
      var target := Target(name);
      TargetConfined(name);
      if target.Err? {
        answer := Answered(Status(NO_SUCH_FILE));
        return;
      }
      ghost var o := Opened(os.fs, target.value, PosixOpenFlags(flags));
      if o.Some? {
        OpenIsPermitted(os.fs, target.value, flags);
      }
      answer := OpenAt(target.value, PosixOpenFlags(flags), o);
    }

    /** The open(2) call, which would leave and yield o, and the handle for what it yields. */
    method OpenAt(path: Path, flags: OpenFlags, ghost o: Option<(Fs, Fd)>) returns (answer: Answer)
      requires Valid() && o == Opened(os.fs, path, flags) && (o.Some? ==> Permitted(o.value.0))
      requires Canonical(options.root) <= path && IsNormal(path)
      requires PathsConfined(Canonical(options.root), os.touched + {path})
      modifies this`handles, this`nextEntry, os`fs, os`fds, os`nextFd, os`touched, os`refused, outbox`sent
      ensures Valid() && Replied(answer)
      ensures OpenAtStep(path, o, answer, old(Now()), Now())
    {
      ghost var before := os.fds;
      var d, absent := os.Open(path, flags);
      if d.None? {
        answer := Answered(Status(if absent then NO_SUCH_FILE else FAILURE));
        return;
      }
      answer := Install(d.value, path, before, o.value.1);
    }

    method OnOpendir(name: string) returns (answer: Answer)
      requires Valid()
      modifies this`handles, this`nextEntry, os`fds, os`nextFd, os`touched, os`refused, outbox`sent
      ensures Valid() && Replied(answer)
      ensures OpendirStep(options, name, answer, old(Now()), Now())
    {
      var target := Target(name);
      TargetConfined(name);
      if target.Err? {
        answer := Answered(Status(NO_SUCH_FILE));
        return;
      }
      answer := OpendirAt(target.value);
    }

    /** The opendir(3) call, and the handle for what it yields. */
    method OpendirAt(path: Path) returns (answer: Answer)
      requires Valid() && Canonical(options.root) <= path && IsNormal(path)
      requires PathsConfined(Canonical(options.root), os.touched + {path})
      modifies this`handles, this`nextEntry, os`fds, os`nextFd, os`touched, os`refused, outbox`sent
      ensures Valid() && Replied(answer)
      ensures OpendirAtStep(path, answer, old(Now()), Now())
    {
      ghost var before := os.fds;
      var d := os.Opendir(path);
      if d.None? {
        answer := Answered(Status(NO_SUCH_FILE));
        return;
      }
      answer := Install(d.value, path, before, os.fds[d.value]);
    }

    method OnClose(slot: nat) returns (answer: Answer)
      requires Valid()
      modifies this`handles, this`closed, os`fds, outbox`sent
      ensures Valid() && Replied(answer)
      ensures CloseStep(slot, answer, old(Now()), Now())
      ensures closed == old(closed) + (if slot in old(handles) then {old(handles[slot].entry)} else {})
    {
      if slot in handles {
        var h := handles[slot];
        assert SlotOk(slot, handles, os.fds, nextEntry, closed, Canonical(options.root));
        TableRemove(handles, os.fds, nextEntry, closed, Canonical(options.root), slot);
        handles, closed := handles - {slot}, closed + {h.entry};
        os.Close(h.fd);
      }
      answer := Answered(Status(OK));
    }

    /** The descriptor of a file is asked, but for a directory the recorded path. */
    method OnFstat(slot: nat) returns (answer: Answer)
      requires Valid()
      modifies os`touched, os`refused, outbox`sent
      ensures Valid() && Replied(answer)
      ensures FstatStep(slot, answer, old(Now()), Now())
    {
      if slot !in handles {
        answer := Answered(Status(INVALID_HANDLE));
        return;
      }
      var node := NodeOf(slot);
      answer := Answered(if node.None? then Status(FAILURE) else Attrs(node.value));
    }

    /** What stat or fstat finds for a handle. */
    method NodeOf(slot: nat) returns (node: Option<Node>)
      requires Valid() && slot in handles
      modifies os`touched, os`refused
      ensures Valid() && (old(os.refused) ==> os.refused)
      ensures FstatStep(slot, if node.None? then Status(FAILURE) else Attrs(node.value), old(Now()), Now())
    {
      assert SlotOk(slot, handles, os.fds, nextEntry, closed, Canonical(options.root));
      if handles[slot].isDir {
        node := os.Lstat(handles[slot].path);
      } else {
        node := os.Fstat(handles[slot].fd);
      }
    }

    // ---- data ----

    method OnRead(slot: nat, offset: U64, len: U32) returns (answer: Answer)
      requires Valid()
      modifies os`refused, outbox`sent
      ensures Valid() && Replied(answer)
      ensures ReadStep(slot, offset, len, answer, old(Now()), Now())
    {
      if slot !in handles || handles[slot].isDir {
        answer := Answered(Status(INVALID_HANDLE));
        return;
      }
      assert SlotOk(slot, handles, os.fds, nextEntry, closed, Canonical(options.root));
      var r := os.Pread(handles[slot].fd, Min(len, MAX_READ), AsOffT(offset));
      answer := Answered(if r.Err? then Status(FAILURE) else if r.value == [] then Status(EOF) else Data(r.value));
    }

    method OnWrite(slot: nat, offset: U64, data: Payload) returns (answer: Answer)
      requires Valid()
      modifies os`fs, os`shortWrite, os`refused, outbox`sent
      ensures Valid() && Replied(answer)
      ensures WriteStep(options, slot, offset, data, answer, old(Now()), Now())
    {
      if options.readOnly {
        answer := Answered(Status(PERMISSION_DENIED));
        return;
      }
      if slot !in handles || handles[slot].isDir {
        answer := Answered(Status(INVALID_HANDLE));
        return;
      }
      // unsigned 64-bit addition: the sum wraps
      if options.maxFileSize != 0 && (offset + |data|) % TWO_64 > options.maxFileSize {
        answer := Answered(Status(PERMISSION_DENIED));
        return;
      }
      WrappedOffsetIsNegative(offset, |data|);
      answer := Store(slot, offset, data);
    }

    /** The pwrite call and its reply. */
    method Store(slot: nat, offset: U64, data: Payload) returns (answer: Answer)
      requires Valid() && !options.readOnly && slot in handles && !handles[slot].isDir
      requires options.maxFileSize != 0 && AsOffT(offset) >= 0 ==> offset + |data| <= options.maxFileSize
      requires options.maxFileSize != 0 ==> (offset + |data|) % TWO_64 <= options.maxFileSize
      modifies os`fs, os`shortWrite, os`refused, outbox`sent
      ensures Valid() && Replied(answer)
      ensures answer != Status(PERMISSION_DENIED)
      ensures WriteStep(options, slot, offset, data, answer, old(Now()), Now())
    {
      var d := handles[slot].fd;
      ghost var before := os.fs;
      assert SlotOk(slot, handles, os.fds, nextEntry, closed, Canonical(options.root));
      var r := os.Pwrite(d, data, AsOffT(offset));
      if r.Err? {
        answer := Answered(Status(FAILURE));
        return;
      }
      if options.maxFileSize != 0 {
        WriteKeepsSizes(initial, before, os.fds[d].inode, offset, data[..r.value], options.maxFileSize);
      }
      assert r.value == |data| ==> data[..r.value] == data;
      answer := Answered(Status(OK));
    }

    /** One batch of names, so that the next batch starts where this one stopped. */
    method OnReaddir(slot: nat) returns (answer: Answer, ghost consumed: nat)
      requires Valid()
      modifies os`fds, outbox`sent
      ensures Valid() && Replied(answer)
      ensures BatchStep(slot, consumed, answer, old(Now()), Now())
    {
      consumed := 0;
      if slot !in handles || !handles[slot].isDir {
        answer := Answered(Status(INVALID_HANDLE));
        return;
      }
      var h := handles[slot];
      assert SlotOk(slot, handles, os.fds, nextEntry, closed, Canonical(options.root));
      ghost var rest, fds := os.fds[h.fd].rest, os.fds;
      var names;
      names, consumed := NextNames(h.fd, h.path);
      if names.None? {
        assert fds == fds[h.fd := Reading(fds[h.fd], rest[0..])];
        answer := Answered(Status(EOF));
        return;
      }
      TableReaddir(handles, fds, nextEntry, closed, Canonical(options.root), h.fd, rest[consumed..]);
      answer := Answered(Names(names.value));
    }

    /** The readdir loop on one stream: None at its end. */
    method NextNames(d: nat, p: Path) returns (names: Option<seq<string>>, ghost consumed: nat)
      requires os.Valid() && d in os.fds && os.fds[d].DirFd?
      modifies os`fds
      ensures os.Valid()
      ensures var fd := old(os.fds)[d];
        if fd.rest == [] then names.None? && consumed == 0 && os.fds == old(os.fds)
        else names.Some? && IsBatch(os.fs, p, fd.rest, consumed, names.value)
             && os.fds == old(os.fds)[d := Reading(fd, fd.rest[consumed..])]
    {
      ghost var rest, fds, fd := os.fds[d].rest, os.fds, os.fds[d];
      consumed := 0;
      var de := os.Readdir(d);
      if de.None? {
        return None, 0;
      }
      var added: seq<string> := [];
      consumed := 1;
      while de.Some?
        invariant os.Valid() && 0 < consumed <= |rest| + 1
        invariant de.Some? ==> consumed <= |rest| && de.value == rest[consumed - 1]
        invariant de.None? ==> consumed == |rest| + 1
        invariant os.fds == fds[d := Reading(fd, rest[Min(consumed, |rest|)..])]
        invariant added == Statable(os.fs, p, rest[..consumed - 1]) && |added| < MAX_BATCH
        decreases |rest| + 1 - consumed
      {
        assert rest[..consumed][..consumed - 1] == rest[..consumed - 1];
        if CanStat(os.fs, p, de.value) {
          added := added + [de.value];
          if |added| >= MAX_BATCH {
            break;
          }
        }
        assert consumed < |rest| ==> rest[consumed..][1..] == rest[consumed + 1..];
        de := os.Readdir(d);
        consumed := consumed + 1;
      }
      if de.None? {
        consumed := |rest|;
        assert rest[..|rest| + 1 - 1] == rest[..consumed];
      }
      names := Some(added);
    }

    // ---- the loop ----

    method DispatchNames(request: Request) returns (answer: Answer)
      requires Valid() && ChangesNames(request)
      modifies os`fs, os`touched, os`refused, outbox`sent
      ensures Valid() && Replied(answer)
      ensures Obeys(options, request, answer, old(Now()), Now())
    {
      match request
      case Remove(name) => answer := OnRemove(name);
      case Mkdir(name) => answer := OnMkdir(name);
      case Rmdir(name) => answer := OnRmdir(name);
      case Rename(name, newName) => answer := OnRename(name, newName);
      case Symlink(target, link) => answer := OnSymlink(target, link);
    }

    /** The requests about handles. */
    method DispatchHandles(request: Request) returns (answer: Answer)
      requires Valid() && UsesHandle(request)
      modifies this`handles, this`closed, os, outbox`sent
      ensures Valid() && old(closed) <= closed && Replied(answer)
      ensures Obeys(options, request, answer, old(Now()), Now())
    {
      match request
      case Fstat(slot) => answer := OnFstat(slot);
      case Readdir(slot) =>
        ghost var consumed;
        answer, consumed := OnReaddir(slot);
      case Read(slot, offset, len) => answer := OnRead(slot, offset, len);
      case Write(slot, offset, data) => answer := OnWrite(slot, offset, data);
      case Close(slot) => answer := OnClose(slot);
    }

    /** The switch over the message type. */
    method Dispatch(request: Request) returns (answer: Answer)
      requires Valid()
      modifies this`handles, this`nextEntry, this`closed, os, outbox`sent
      ensures Valid() && old(closed) <= closed && Replied(answer)
      ensures Obeys(options, request, answer, old(Now()), Now())
    {
      if ChangesNames(request) {
        answer := DispatchNames(request);
        return;
      }
      if UsesHandle(request) {
        answer := DispatchHandles(request);
        return;
      }
      match request
      case Realpath(name) => answer := OnRealpath(name);
      case Stat(name) => answer := OnStat(name);
      case Lstat(name) => answer := OnStat(name);
      case Opendir(name) => answer := OnOpendir(name);
      case Open(name, flags) => answer := OnOpen(name, flags);
      case Readlink(name) => answer := OnReadlink(name);
      case Other => answer := Answered(Status(OP_UNSUPPORTED));
    }

    /** Any sequence of requests gets exactly one reply each, in order, and each reply is what the
        request asks for in the state it meets. Along the way the table stays exact, closed records
        stay out of it, a read-only server changes no file, and no file grows past the cap. In a run
        that never meets a symbolic link, only paths under the root are touched. */
    method Serve(messages: seq<Message>) returns (replies: seq<Reply>, ghost trace: seq<Snapshot>)
      requires Valid()
      modifies this`handles, this`nextEntry, this`closed, os, outbox
      ensures Valid() && old(closed) <= closed
      ensures outbox.sent == old(outbox.sent) + replies
      ensures Runs(options, messages, replies, trace) && trace[0] == old(Now()) && trace[|messages|] == Now()
      ensures forall i :: 0 <= i < |messages| ==> Fits(messages[i].request, replies[i].answer)
      ensures forall s :: s in handles ==> handles[s].entry !in old(closed)
      ensures os.fds.Keys == FdsOf(handles) && forall s :: Alone(s, handles)
      ensures old(LinkFree(os.fs)) && NoSymlink(messages, replies) ==>
        (forall k :: 0 <= k < |trace| ==> LinkFree(trace[k].fs)) && PathsConfined(Canonical(options.root), os.touched)
      ensures options.readOnly ==> os.fs == initial
      ensures options.maxFileSize != 0 ==> SizesBounded(initial, os.fs, options.maxFileSize)
    {
      replies, trace := [], [Now()];
      assert messages[..0] == [];
      for i := 0 to |messages|
        invariant Valid() && old(closed) <= closed
        invariant outbox.sent == old(outbox.sent) + replies
        invariant Runs(options, messages[..i], replies, trace) && trace[0] == old(Now()) && trace[i] == Now()
      {
        outbox.current := messages[i].id;
        ghost var sent := outbox.sent;
        var answer := Dispatch(messages[i].request);
        var reply := Reply(messages[i].id, answer);
        assert sent + [reply] == old(outbox.sent) + (replies + [reply]);
        RunsAppend(options, messages[..i], replies, trace, messages[i], reply, Now());
        assert messages[..i + 1] == messages[..i] + [messages[i]];
        replies, trace := replies + [reply], trace + [Now()];
      }
      assert messages[..|messages|] == messages;
      RunsFit(options, messages, replies, trace);
      if old(LinkFree(os.fs)) && NoSymlink(messages, replies) {
        RunsLinkFree(options, messages, replies, trace);
      }
      TableMeaning(handles, os.fds, nextEntry, closed, Canonical(options.root));
    }
  }

  lemma AddThenRemove(fds: map<nat, Fd>, d: nat, fd: Fd)
    requires d !in fds
    ensures fds[d := fd] - {d} == fds
  {
  }

  lemma RenamedIsWellFormed(fs: Fs, from: Path, to: Path)
    requires WellFormed(fs)
    ensures var r := Renamed(fs, from, to); r.Some? ==> WellFormed(r.value) && r.value.inodes == fs.inodes
  {
  }
}
