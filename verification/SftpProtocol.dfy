/** What the SFTP server is to do with each request: its messages, its handle table, and the relation
    between a request, the answer and the state before and after. */
module SftpProtocol {
  import opened Basics
  import opened SftpPath
  import opened Posix

  const MAX_READ: nat := 64 * 1024
  const MAX_BATCH: nat := 64
  const MAX_HANDLES: nat := 256  // slots in libssh's handle table
  const TWO_64: nat := 0x1_0000_0000_0000_0000
  const TWO_63: nat := 0x8000_0000_0000_0000

  type U32 = x: int | 0 <= x < 0x1_0000_0000
  type U64 = x: int | 0 <= x < TWO_64

  /** A data string on the wire: its length is a 32-bit count. */
  type Payload = d: seq<Byte> | |d| < 0x1_0000_0000 witness []

  // Open flags of draft-ietf-secsh-filexfer-02, section 6.3.
  const FXF_READ: bv32 := 0x01
  const FXF_WRITE: bv32 := 0x02
  const FXF_APPEND: bv32 := 0x04
  const FXF_CREAT: bv32 := 0x08
  const FXF_TRUNC: bv32 := 0x10
  const FXF_EXCL: bv32 := 0x20

  datatype Code = OK | EOF | NO_SUCH_FILE | PERMISSION_DENIED | FAILURE | OP_UNSUPPORTED | INVALID_HANDLE

  datatype Request =
    | Realpath(name: string)
    | Stat(name: string)
    | Lstat(name: string)
    | Fstat(handle: nat)
    | Opendir(name: string)
    | Readdir(handle: nat)
    | Open(name: string, flags: bv32)
    | Read(handle: nat, offset: U64, len: U32)
    | Write(handle: nat, offset: U64, data: Payload)
    | Close(handle: nat)
    | Remove(name: string)
    | Mkdir(name: string)
    | Rmdir(name: string)
    | Rename(name: string, newName: string)
    | Readlink(name: string)
    | Symlink(target: string, link: string)
    | Other

  datatype Message = Message(id: nat, request: Request)

  datatype Answer =
    | Status(code: Code)
    | Handle(slot: nat)
    | Data(bytes: seq<Byte>)
    | Names(names: seq<string>)
    | Name(path: string)
    | Attrs(node: Node)

  datatype Reply = Reply(id: nat, answer: Answer)

  datatype Options = Options(root: seq<string>, readOnly: bool, maxFileSize: nat)  // maxFileSize 0: unlimited

  /** What the table's slot points to; entry is the identity of the allocated record. */
  datatype HandleEntry = HandleEntry(entry: nat, isDir: bool, fd: nat, path: Path)

  type Table = map<nat, HandleEntry>

  /** The state a request works on; refused and shortWrite say what the system calls have done so far. */
  datatype Snapshot = Snapshot(fs: Fs, fds: map<nat, Fd>, handles: Table, refused: bool, shortWrite: bool)

  function Target(options: Options, name: string): Result<Path> {
    Resolve(options.root, name)
  }

  // ---- the wire's numbers ----

  /** The cast from the wire's unsigned offset to off_t. */
  function AsOffT(offset: U64): int {
    if offset < TWO_63 then offset else offset - TWO_64
  }

  function PosixOpenFlags(flags: bv32): OpenFlags {
    OpenFlags(
      if flags & FXF_READ != 0 && flags & FXF_WRITE != 0 then RdWr
      else if flags & FXF_WRITE != 0 then WrOnly else RdOnly,
      flags & FXF_CREAT != 0, flags & FXF_TRUNC != 0, flags & FXF_EXCL != 0, flags & FXF_APPEND != 0)
  }

  /** The test that guards OPEN under read_only. */
  predicate AsksToChange(flags: bv32) {
    flags & (FXF_WRITE | FXF_CREAT | FXF_TRUNC | FXF_APPEND) != 0
  }

  /** What the guard lets through cannot write, create or truncate. */
  lemma GuardedOpenIsReadOnly(flags: bv32)
    ensures !AsksToChange(flags) <==>
      var f := PosixOpenFlags(flags); f.access == RdOnly && !f.creat && !f.trunc && !f.append
  {
    assert flags & 0x1e == 0 <==> flags & 0x02 == 0 && flags & 0x04 == 0 && flags & 0x08 == 0 && flags & 0x10 == 0;
  }

  lemma ReadOnlyOpenKeepsFs(fs: Fs, p: Path, flags: bv32)
    requires !AsksToChange(flags) && Opened(fs, p, PosixOpenFlags(flags)).Some?
    ensures Opened(fs, p, PosixOpenFlags(flags)).value.0 == fs
  {
    GuardedOpenIsReadOnly(flags);
  }

  /** A size cap that no write exceeds is not exceeded through wrap-around either: when the
      64-bit sum wraps, the offset is negative as an off_t. */
  lemma WrappedOffsetIsNegative(offset: U64, len: U32)
    ensures offset + len >= TWO_64 ==> AsOffT(offset) < 0
  {
  }

  /** Entries that lstat can see, in the order readdir delivered them. */
  function Statable(fs: Fs, p: Path, names: seq<string>): seq<string> {
    if names == [] then []
    else
      Statable(fs, p, names[..|names| - 1]) +
      (if CanStat(fs, p, names[|names| - 1]) then [names[|names| - 1]] else [])
  }

  // ---- what each request does ----

  predicate HasFreeSlot(handles: Table) {
    exists s: nat :: s < MAX_HANDLES && s !in handles
  }

  /** slot is new, its record is none of those in the table, and it holds a descriptor that is new, opened on path. */
  ghost predicate NewHandle(slot: nat, path: Path, s: Snapshot, s': Snapshot, fd: Fd) {
    && slot !in s.handles && slot in s'.handles && s'.handles == s.handles[slot := s'.handles[slot]]
    && s'.handles[slot].isDir == fd.DirFd? && s'.handles[slot].path == path
    && s'.handles[slot].fd !in s.fds && s'.fds == s.fds[s'.handles[slot].fd := fd]
    && forall t :: t in s.handles ==> s.handles[t].entry != s'.handles[slot].entry
  }

  /** The handle's descriptor, for a handle of the right kind. */
  predicate IsOpen(s: Snapshot, slot: nat, isDir: bool) {
    slot in s.handles && s.handles[slot].isDir == isDir && s.handles[slot].fd in s.fds
  }

  /** Nothing changed. */
  predicate Quiet(s: Snapshot, s': Snapshot) {
    s' == s.(refused := s'.refused) && (s.refused ==> s'.refused)
  }

  predicate RealpathStep(options: Options, name: string, answer: Answer, s: Snapshot, s': Snapshot) {
    && Quiet(s, s')
    && answer == if Target(options, name).Ok? then Name(ToClientPath(options.root, Target(options, name).value))
                 else Status(NO_SUCH_FILE)
  }

  /** STAT and LSTAT: without symbolic links to follow, the same. */
  predicate StatStep(options: Options, name: string, answer: Answer, s: Snapshot, s': Snapshot) {
    var target := Target(options, name);
    && Quiet(s, s')
    && (answer == Status(NO_SUCH_FILE) ||
        (target.Ok? && target.value in s.fs.tree && answer == Attrs(s.fs.tree[target.value])))
    && (!s'.refused && target.Ok? && target.value in s.fs.tree ==> answer.Attrs?)
  }

  predicate ReadlinkStep(options: Options, name: string, answer: Answer, s: Snapshot, s': Snapshot) {
    var target := Target(options, name);
    var found := target.Ok? && target.value in s.fs.tree && s.fs.tree[target.value].LinkNode?;
    && Quiet(s, s')
    && (answer == Status(NO_SUCH_FILE) || (found && answer == Name(s.fs.tree[target.value].target)))
    && (!s'.refused && found ==> answer.Name?)
  }

  /** FSTAT asks about the descriptor of a file, but about the recorded path of a directory. */
  predicate FstatStep(slot: nat, answer: Answer, s: Snapshot, s': Snapshot) {
    && Quiet(s, s')
    && (answer == Status(INVALID_HANDLE) <==> slot !in s.handles)
    && (slot in s.handles ==> answer == Status(FAILURE) || answer.Attrs?)
    && (IsOpen(s, slot, false) && !s'.refused ==> answer.Attrs?)
    && (IsOpen(s, slot, false) && answer.Attrs? ==>
          answer.node == match s.fds[s.handles[slot].fd]
                         case FileFd(inode, _) => FileNode(inode)
                         case RawDirFd(dir) => DirNode(dir)
                         case DirFd(dir, _) => DirNode(dir))
    && (IsOpen(s, slot, true) && !s'.refused ==> (answer.Attrs? <==> s.handles[slot].path in s.fs.tree))
    && (IsOpen(s, slot, true) && answer.Attrs? ==>
          s.handles[slot].path in s.fs.tree && answer.node == s.fs.tree[s.handles[slot].path])
  }

  /** What a request that changes names leaves behind when it is carried out. */
  function TreeAfter(options: Options, fs: Fs, request: Request): Option<Fs> {
    match request
    case Remove(name) => if Target(options, name).Ok? then Unlinked(fs, Target(options, name).value) else None
    case Mkdir(name) => if Target(options, name).Ok? then MadeDir(fs, Target(options, name).value) else None
    case Rmdir(name) => if Target(options, name).Ok? then RemovedDir(fs, Target(options, name).value) else None
    case Rename(name, newName) =>
      if Target(options, name).Ok? && Target(options, newName).Ok?
      then Renamed(fs, Target(options, name).value, Target(options, newName).value) else None
    case Symlink(target, link) =>
      if Target(options, link).Ok? then Symlinked(fs, target, Target(options, link).value) else None
    case _ => None
  }

  /** A request that would leave next behind: done exactly when it is answered with OK. */
  predicate NamesStep(options: Options, next: Option<Fs>, refusal: Code, answer: Answer, s: Snapshot, s': Snapshot) {
    && s' == s.(fs := s'.fs, refused := s'.refused) && (s.refused ==> s'.refused)
    && (answer == Status(OK) || answer == Status(PERMISSION_DENIED) || answer == Status(refusal))
    && (answer == Status(PERMISSION_DENIED) <==> options.readOnly)
    && (if answer == Status(OK) then next == Some(s'.fs) else s'.fs == s.fs)
    && (!s'.refused && !options.readOnly && next.Some? ==> answer == Status(OK))
  }

  /** OPEN of path, when the options allow it; open(2) would leave and yield o. */
  ghost predicate OpenAtStep(path: Path, o: Option<(Fs, Fd)>, answer: Answer, s: Snapshot, s': Snapshot) {
    && s'.shortWrite == s.shortWrite && (s.refused ==> s'.refused)
    && (answer.Handle? || answer == Status(NO_SUCH_FILE) || answer == Status(FAILURE))
    && (s'.fs == s.fs || (o.Some? && s'.fs == o.value.0))
    && (answer.Handle? ==> o.Some? && s'.fs == o.value.0 && NewHandle(answer.slot, path, s, s', o.value.1))
    && (!answer.Handle? ==> s'.handles == s.handles && s'.fds == s.fds)
    && (!s'.refused ==>
          && (answer.Handle? <==> o.Some? && HasFreeSlot(s.handles))
          && (o.None? ==> answer == Status(if NoEntry(s.fs, path) then NO_SUCH_FILE else FAILURE))
          && (o.Some? && !answer.Handle? ==> answer == Status(FAILURE)))
  }

  ghost predicate OpenStep(options: Options, name: string, flags: bv32, answer: Answer, s: Snapshot, s': Snapshot) {
    var target := Target(options, name);
    if options.readOnly && AsksToChange(flags) then s' == s && answer == Status(PERMISSION_DENIED)
    else if target.Err? then s' == s && answer == Status(NO_SUCH_FILE)
    else OpenAtStep(target.value, Opened(s.fs, target.value, PosixOpenFlags(flags)), answer, s, s')
  }

  ghost predicate OpendirStep(options: Options, name: string, answer: Answer, s: Snapshot, s': Snapshot) {
    var target := Target(options, name);
    if target.Err? then s' == s && answer == Status(NO_SUCH_FILE) else OpendirAtStep(target.value, answer, s, s')
  }

  ghost predicate OpendirAtStep(path: Path, answer: Answer, s: Snapshot, s': Snapshot) {
    var found := path in s.fs.tree && s.fs.tree[path].DirNode?;
    && s'.fs == s.fs && s'.shortWrite == s.shortWrite && (s.refused ==> s'.refused)
    && (answer.Handle? || answer == Status(NO_SUCH_FILE) || answer == Status(FAILURE))
    && (answer.Handle? ==> found && ReadsDirectory(answer.slot, path, s')
                           && NewHandle(answer.slot, path, s, s', s'.fds[s'.handles[answer.slot].fd]))
    && (!answer.Handle? ==> s'.handles == s.handles && s'.fds == s.fds)
    && (!s'.refused ==>
          && (answer.Handle? <==> found && HasFreeSlot(s.handles))
          && (!answer.Handle? ==> answer == Status(if found then FAILURE else NO_SUCH_FILE)))
  }

  /** The handle reads the directory at p. */
  ghost predicate ReadsDirectory(slot: nat, p: Path, s: Snapshot) {
    && IsOpen(s, slot, true) && s.handles[slot].path == p && s.fds[s.handles[slot].fd].DirFd?
    && p in s.fs.tree && s.fs.tree[p] == DirNode(s.fds[s.handles[slot].fd].dir)
    && IsListing(s.fs, p, s.fds[s.handles[slot].fd].rest)
  }

  /** One batch of names: the next consumed ones, without those that lstat cannot see; at most
      MAX_BATCH, and no fewer unless the stream ends. */
  ghost predicate IsBatch(fs: Fs, p: Path, rest: seq<string>, consumed: nat, names: seq<string>) {
    && 1 <= consumed <= |rest| && names == Statable(fs, p, rest[..consumed]) && |names| <= MAX_BATCH
    && (consumed == |rest| || |names| == MAX_BATCH)
    && (|names| == MAX_BATCH ==> CanStat(fs, p, rest[consumed - 1]))
  }

  ghost predicate BatchStep(slot: nat, consumed: nat, answer: Answer, s: Snapshot, s': Snapshot) {
    if !(slot in s.handles && s.handles[slot].isDir) then s' == s && answer == Status(INVALID_HANDLE)
    else
      var h := s.handles[slot];
      && h.fd in s.fds && s.fds[h.fd].DirFd?
      && var rest := s.fds[h.fd].rest;
         if rest == [] then s' == s && answer == Status(EOF) && consumed == 0
         else
           && answer.Names? && IsBatch(s.fs, h.path, rest, consumed, answer.names)
           && s' == s.(fds := s.fds[h.fd := Reading(s.fds[h.fd], rest[consumed..])])
  }

  ghost predicate ReaddirStep(slot: nat, answer: Answer, s: Snapshot, s': Snapshot) {
    exists consumed: nat :: BatchStep(slot, consumed, answer, s, s')
  }

  /** At most MAX_READ bytes of the file at the offset; EOF when there are none. */
  predicate ReadStep(slot: nat, offset: U64, len: U32, answer: Answer, s: Snapshot, s': Snapshot) {
    && Quiet(s, s')
    && (answer == Status(INVALID_HANDLE) <==> slot !in s.handles || s.handles[slot].isDir)
    && (answer.Data? || answer == Status(INVALID_HANDLE) || answer == Status(FAILURE) || answer == Status(EOF))
    && (answer.Data? || answer == Status(EOF) ==>
          && CanRead(s, slot) && offset < TWO_63
          && var bytes := Slice(s.fs.inodes[s.fds[s.handles[slot].fd].inode], offset, Min(len, MAX_READ));
             if answer.Data? then bytes == answer.bytes && bytes != [] else bytes == [])
    && (!s'.refused && CanRead(s, slot) && offset < TWO_63 ==> answer.Data? || answer == Status(EOF))
  }

  /** The handle is open for reading on a file. */
  predicate CanRead(s: Snapshot, slot: nat) {
    && IsOpen(s, slot, false) && s.fds[s.handles[slot].fd].FileFd? && s.fds[s.handles[slot].fd].access != WrOnly
    && s.fds[s.handles[slot].fd].inode in s.fs.inodes
  }

  /** A write through the handle that ends at end is allowed. */
  predicate CanWrite(options: Options, s: Snapshot, slot: nat, end: nat) {
    && !options.readOnly && IsOpen(s, slot, false) && s.fds[s.handles[slot].fd].FileFd?
    && s.fds[s.handles[slot].fd].access != RdOnly && s.fds[s.handles[slot].fd].inode in s.fs.inodes
    && (options.maxFileSize == 0 || end <= options.maxFileSize) && end <= OFF_MAX
  }

  /** Data laid over the file at the offset, within the cap; OK is answered even if the store was short. */
  predicate WriteStep(options: Options, slot: nat, offset: U64, data: Payload, answer: Answer, s: Snapshot, s': Snapshot) {
    && s' == s.(fs := s'.fs, refused := s'.refused, shortWrite := s'.shortWrite) && (s.refused ==> s'.refused)
    && (answer == Status(PERMISSION_DENIED) || answer == Status(INVALID_HANDLE) || answer == Status(FAILURE) || answer == Status(OK))
    && (options.readOnly ==> answer == Status(PERMISSION_DENIED))
    && (answer == Status(PERMISSION_DENIED) ==>
          options.readOnly || (options.maxFileSize != 0 && offset + |data| > options.maxFileSize))
    && (!options.readOnly ==> (answer == Status(INVALID_HANDLE) <==> slot !in s.handles || s.handles[slot].isDir))
    && (!options.readOnly && slot in s.handles && !s.handles[slot].isDir ==>
          (answer == Status(PERMISSION_DENIED) <==>
             options.maxFileSize != 0 && (offset + |data|) % TWO_64 > options.maxFileSize))
    && (answer != Status(OK) ==> s'.fs == s.fs && s'.shortWrite == s.shortWrite)
    && (answer == Status(OK) ==>
          && CanWrite(options, s, slot, offset + |data|)
          && var inode := s.fds[s.handles[slot].fd].inode;
             inode in s'.fs.inodes && s'.fs == s.fs.(inodes := s.fs.inodes[inode := s'.fs.inodes[inode]])
             && (!s'.shortWrite ==> s'.fs.inodes[inode] == Overlay(s.fs.inodes[inode], offset, data) && !s.shortWrite))
    && (!s'.refused && CanWrite(options, s, slot, offset + |data|) ==> answer == Status(OK))
  }

  predicate CloseStep(slot: nat, answer: Answer, s: Snapshot, s': Snapshot) {
    && answer == Status(OK)
    && (if slot !in s.handles then s' == s
        else s' == s.(handles := s.handles - {slot}, fds := s.fds - {s.handles[slot].fd}))
  }

  /** The server's behaviour on one request. */
  ghost predicate Obeys(options: Options, request: Request, answer: Answer, s: Snapshot, s': Snapshot) {
    match request
    case Realpath(name) => RealpathStep(options, name, answer, s, s')
    case Stat(name) => StatStep(options, name, answer, s, s')
    case Lstat(name) => StatStep(options, name, answer, s, s')
    case Fstat(slot) => FstatStep(slot, answer, s, s')
    case Opendir(name) => OpendirStep(options, name, answer, s, s')
    case Readdir(slot) => ReaddirStep(slot, answer, s, s')
    case Open(name, flags) => OpenStep(options, name, flags, answer, s, s')
    case Read(slot, offset, len) => ReadStep(slot, offset, len, answer, s, s')
    case Write(slot, offset, data) => WriteStep(options, slot, offset, data, answer, s, s')
    case Close(slot) => CloseStep(slot, answer, s, s')
    case Remove(_) => NamesStep(options, TreeAfter(options, s.fs, request), NO_SUCH_FILE, answer, s, s')
    case Mkdir(_) => NamesStep(options, TreeAfter(options, s.fs, request), FAILURE, answer, s, s')
    case Rmdir(_) => NamesStep(options, TreeAfter(options, s.fs, request), FAILURE, answer, s, s')
    case Rename(_, _) => NamesStep(options, TreeAfter(options, s.fs, request), FAILURE, answer, s, s')
    case Symlink(_, _) => NamesStep(options, TreeAfter(options, s.fs, request), FAILURE, answer, s, s')
    case Readlink(name) => ReadlinkStep(options, name, answer, s, s')
    case Other => s' == s && answer == Status(OP_UNSUPPORTED)
  }

  // ---- what follows for every request ----

  predicate ChangesNames(request: Request) {
    request.Remove? || request.Mkdir? || request.Rmdir? || request.Rename? || request.Symlink?
  }

  predicate UsesHandle(request: Request) {
    request.Fstat? || request.Readdir? || request.Read? || request.Write? || request.Close?
  }

  /** The answer is of the kind the request asks for. */
  predicate Fits(request: Request, answer: Answer) {
    match answer
    case Handle(_) => request.Open? || request.Opendir?
    case Data(_) => request.Read?
    case Names(_) => request.Readdir?
    case Name(_) => request.Realpath? || request.Readlink?
    case Attrs(_) => request.Stat? || request.Lstat? || request.Fstat?
    case Status(code) =>
      && (code == OP_UNSUPPORTED <==> request.Other?)
      && (code == OK ==> ChangesNames(request) || request.Write? || request.Close?)
      && (code == EOF ==> request.Read? || request.Readdir?)
  }

  lemma ObeysFits(options: Options, request: Request, answer: Answer, s: Snapshot, s': Snapshot)
    requires Obeys(options, request, answer, s, s')
    ensures Fits(request, answer)
  {
  }

  /** Only a handle answered is added to the table, and only a CLOSE takes one out. */
  predicate TableFollows(request: Request, answer: Answer, handles: Table, handles': Table) {
    if answer.Handle? then
      answer.slot !in handles && answer.slot in handles' && handles' == handles[answer.slot := handles'[answer.slot]]
    else if request.Close? then handles' == handles - {request.handle}
    else handles' == handles
  }

  lemma ObeysTable(options: Options, request: Request, answer: Answer, s: Snapshot, s': Snapshot)
    requires Obeys(options, request, answer, s, s')
    ensures TableFollows(request, answer, s.handles, s'.handles)
  {
    if request.Close? && request.handle !in s.handles {
      assert s.handles - {request.handle} == s.handles;
    }
  }

  /** A tree without links stays so unless a SYMLINK succeeds. */
  lemma ObeysLinks(options: Options, request: Request, answer: Answer, s: Snapshot, s': Snapshot)
    requires Obeys(options, request, answer, s, s') && LinkFree(s.fs)
    requires !(request.Symlink? && answer == Status(OK))
    ensures LinkFree(s'.fs)
  {
  }

  // ---- FSTAT on a directory ----

  /** It answers for the directory that is open exactly while that directory keeps the name it was
      opened under. */
  lemma FstatOfDirectoryIff(slot: nat, answer: Answer, s: Snapshot, s': Snapshot)
    requires FstatStep(slot, answer, s, s') && !s'.refused
    requires IsOpen(s, slot, true) && s.fds[s.handles[slot].fd].DirFd?
    ensures answer == Attrs(DirNode(s.fds[s.handles[slot].fd].dir))
       <==> s.handles[slot].path in s.fs.tree && s.fs.tree[s.handles[slot].path] == DirNode(s.fds[s.handles[slot].fd].dir)
  {
  }

  /** So after the directory has been renamed, FSTAT on its handle fails. */
  lemma FstatAfterRename(options: Options, name: string, newName: string, slot: nat,
                         s: Snapshot, renamed: Snapshot, answer: Answer, s': Snapshot)
    requires Obeys(options, Rename(name, newName), Status(OK), s, renamed)
    requires Obeys(options, Fstat(slot), answer, renamed, s') && !s'.refused
    requires IsOpen(s, slot, true) && Target(options, name) == Ok(s.handles[slot].path)
    requires Target(options, newName).Ok? && Target(options, newName).value != s.handles[slot].path
    ensures answer == Status(FAILURE)
  {
    var from, to := s.handles[slot].path, Target(options, newName).value;
    assert Renamed(s.fs, from, to) == Some(renamed.fs);
    assert from !in renamed.fs.tree;
  }

  // ---- runs ----

  /** One reply to each message, in order, each what the request asks for in the state it meets. */
  ghost predicate Runs(options: Options, messages: seq<Message>, replies: seq<Reply>, trace: seq<Snapshot>) {
    && |replies| == |messages| && |trace| == |messages| + 1
    && forall i :: 0 <= i < |messages| ==>
         && replies[i].id == messages[i].id
         && Obeys(options, messages[i].request, replies[i].answer, trace[i], trace[i + 1])
  }

  lemma RunsAppend(options: Options, messages: seq<Message>, replies: seq<Reply>, trace: seq<Snapshot>,
                   m: Message, r: Reply, s: Snapshot)
    requires Runs(options, messages, replies, trace) && r.id == m.id
    requires Obeys(options, m.request, r.answer, trace[|messages|], s)
    ensures Runs(options, messages + [m], replies + [r], trace + [s])
  {
  }

  /** No SYMLINK among the messages succeeds. */
  predicate NoSymlink(messages: seq<Message>, replies: seq<Reply>)
    requires |replies| == |messages|
  {
    forall i :: 0 <= i < |messages| ==> !(messages[i].request.Symlink? && replies[i].answer == Status(OK))
  }

  lemma {:induction false} LinkFreeAlong(trace: seq<Snapshot>, k: nat)
    requires k < |trace| && LinkFree(trace[0].fs)
    requires forall i :: 0 <= i < |trace| - 1 && LinkFree(trace[i].fs) ==> LinkFree(trace[i + 1].fs)
    ensures LinkFree(trace[k].fs)
  {
    if k > 0 {
      LinkFreeAlong(trace, k - 1);
    }
  }

  /** A run over a tree without links in which no SYMLINK succeeds never meets a link. */
  lemma RunsLinkFree(options: Options, messages: seq<Message>, replies: seq<Reply>, trace: seq<Snapshot>)
    requires Runs(options, messages, replies, trace) && LinkFree(trace[0].fs) && NoSymlink(messages, replies)
    ensures forall k :: 0 <= k < |trace| ==> LinkFree(trace[k].fs)
  {
    forall i | 0 <= i < |trace| - 1 && LinkFree(trace[i].fs) ensures LinkFree(trace[i + 1].fs) {
      ObeysLinks(options, messages[i].request, replies[i].answer, trace[i], trace[i + 1]);
    }
    forall k | 0 <= k < |trace| ensures LinkFree(trace[k].fs) {
      LinkFreeAlong(trace, k);
    }
  }

  lemma RunsFit(options: Options, messages: seq<Message>, replies: seq<Reply>, trace: seq<Snapshot>)
    requires Runs(options, messages, replies, trace)
    ensures forall i :: 0 <= i < |messages| ==>
      && Fits(messages[i].request, replies[i].answer)
      && TableFollows(messages[i].request, replies[i].answer, trace[i].handles, trace[i + 1].handles)
  {
    forall i | 0 <= i < |messages|
      ensures Fits(messages[i].request, replies[i].answer)
      ensures TableFollows(messages[i].request, replies[i].answer, trace[i].handles, trace[i + 1].handles)
    {
      ObeysFits(options, messages[i].request, replies[i].answer, trace[i], trace[i + 1]);
      ObeysTable(options, messages[i].request, replies[i].answer, trace[i], trace[i + 1]);
    }
  }
}
