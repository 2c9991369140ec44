/** What a client of the SFTP server may rely on, in the wire's own numbers and in what it sees. */
module SftpLaws {
  import opened Basics
  import opened SftpPath
  import opened Posix
  import opened SftpProtocol

  // ---- OPEN ----

  /** What the flag bits of section 6.3 of draft-ietf-secsh-filexfer-02 ask for. */
  predicate AsksToRead(flags: bv32) {
    flags & 0x01 != 0
  }

  predicate AsksToWrite(flags: bv32) {
    flags & 0x02 != 0
  }

  predicate AsksToCreate(flags: bv32) {
    flags & 0x08 != 0
  }

  predicate AsksToEmpty(flags: bv32) {
    flags & 0x10 != 0
  }

  predicate AsksToBeFirst(flags: bv32) {
    flags & 0x20 != 0
  }

  /** Read-only servers refuse every word that asks to write, append, create or empty. */
  predicate Harmless(flags: bv32) {
    flags & 0x02 == 0 && flags & 0x04 == 0 && flags & 0x08 == 0 && flags & 0x10 == 0
  }

  /** Whether OPEN can be granted: of a file, unless it must not exist; of a directory, only to look at; of a
      missing name, to create it in a directory. */
  predicate Openable(fs: Fs, p: Path, flags: bv32) {
    if p !in fs.tree then
      AsksToCreate(flags) && p != [] && p[..|p| - 1] in fs.tree && fs.tree[p[..|p| - 1]].DirNode?
    else if fs.tree[p].FileNode? then !(AsksToCreate(flags) && AsksToBeFirst(flags))
    else fs.tree[p].DirNode? && !AsksToWrite(flags) && !AsksToCreate(flags) && !AsksToEmpty(flags)
  }

  lemma BitsAre(flags: bv32)
    ensures var f := PosixOpenFlags(flags);
      && (f.access != WrOnly <==> AsksToRead(flags) || !AsksToWrite(flags))
      && (f.access != RdOnly <==> AsksToWrite(flags))
      && (f.creat <==> AsksToCreate(flags)) && (f.trunc <==> AsksToEmpty(flags)) && (f.excl <==> AsksToBeFirst(flags))
    ensures AsksToChange(flags) <==> !Harmless(flags)
  {
    GuardedOpenIsReadOnly(flags);
  }

  /** OPEN is granted exactly when it can be, there is a slot, and a read-only server is not asked to change
      anything, as long as no system call is refused. */
  lemma OpenGrantedIff(options: Options, name: string, flags: bv32, answer: Answer, s: Snapshot, s': Snapshot)
    requires Obeys(options, Open(name, flags), answer, s, s') && !s'.refused
    ensures answer.Handle? <==>
      && (options.readOnly ==> Harmless(flags)) && Target(options, name).Ok?
      && Openable(s.fs, Target(options, name).value, flags) && exists slot: nat :: slot < 256 && slot !in s.handles
    ensures options.readOnly && !Harmless(flags) <==> answer == Status(PERMISSION_DENIED)
  {
    BitsAre(flags);
  }

  /** The handle reads if the word asks to read or does not ask to write, and writes if it asks to write. */
  lemma OpenedForWhat(options: Options, name: string, flags: bv32, slot: nat, s: Snapshot, s': Snapshot)
    requires Obeys(options, Open(name, flags), Handle(slot), s, s') && WellFormed(s.fs)
    requires !(Target(options, name).value in s.fs.tree && s.fs.tree[Target(options, name).value].DirNode?)
    ensures CanRead(s', slot) <==> AsksToRead(flags) || !AsksToWrite(flags)
    ensures forall end: nat :: end <= 0x7fff_ffff_ffff_ffff && (options.maxFileSize == 0 || end <= options.maxFileSize) ==>
      (CanWrite(options, s', slot, end) <==> AsksToWrite(flags))
  {
    BitsAre(flags);
  }

  /** What stands at a name: nothing, or the bytes of a file. */
  function BytesAt(fs: Fs, p: Path): Option<seq<Byte>> {
    if p in fs.tree && fs.tree[p].FileNode? && fs.tree[p].inode in fs.inodes then Some(fs.inodes[fs.tree[p].inode]) else None
  }

  /** The file is emptied only if the word asks for it, a new one is empty, and nothing else changes. */
  lemma OpenedWithWhat(options: Options, name: string, flags: bv32, slot: nat, s: Snapshot, s': Snapshot)
    requires Obeys(options, Open(name, flags), Handle(slot), s, s') && WellFormed(s.fs)
    ensures var p := Target(options, name).value;
      && s'.fs.tree - {p} == s.fs.tree - {p} && (p in s.fs.tree ==> s'.fs.tree == s.fs.tree)
      && (BytesAt(s.fs, p).Some? ==> BytesAt(s'.fs, p) == if AsksToEmpty(flags) then Some([]) else BytesAt(s.fs, p))
      && (p !in s.fs.tree ==> BytesAt(s'.fs, p) == Some([]))
      && (forall i :: i in s.fs.inodes && !(p in s.fs.tree && s.fs.tree[p] == FileNode(i)) ==>
            i in s'.fs.inodes && s'.fs.inodes[i] == s.fs.inodes[i])
  {
    BitsAre(flags);
  }

  /** A file that cannot be opened for want of a name is missing from a directory; with something else on the way
      the failure is another one. */
  lemma OpenRefusedHow(options: Options, name: string, flags: bv32, answer: Answer, s: Snapshot, s': Snapshot)
    requires Obeys(options, Open(name, flags), answer, s, s') && !s'.refused && !answer.Handle?
    requires (options.readOnly ==> Harmless(flags)) && Target(options, name).Ok?
    ensures var p := Target(options, name).value;
      && (p in s.fs.tree ==> answer == Status(FAILURE))
      && (p !in s.fs.tree && AllDirectories(s.fs, p) && !Openable(s.fs, p, flags) ==> answer == Status(NO_SUCH_FILE))
      && (p !in s.fs.tree && HasFreeSlot(s.handles) && NotThrough(s.fs, p) ==> answer == Status(FAILURE))
  {
    BitsAre(flags);
    var p := Target(options, name).value;
    if p !in s.fs.tree && AllDirectories(s.fs, p) {
      MissingIsNoEntry(s.fs, p);
    }
    if NotThrough(s.fs, p) {
      BlockedIsNoEntry(s.fs, p);
    }
  }

  /** What exists on the way to p are directories. */
  predicate AllDirectories(fs: Fs, p: Path) {
    forall k :: 0 <= k < |p| && p[..k] in fs.tree ==> fs.tree[p[..k]].DirNode?
  }

  /** The last that exists on the way to p is not a directory. */
  predicate NotThrough(fs: Fs, p: Path) {
    exists k :: 0 <= k < |p| && p[..k] in fs.tree && !fs.tree[p[..k]].DirNode? && forall j :: k < j <= |p| ==> p[..j] !in fs.tree
  }

  lemma {:induction false} MissingIsNoEntry(fs: Fs, p: Path)
    requires p !in fs.tree && AllDirectories(fs, p)
    ensures NoEntry(fs, p)
    decreases |p|
  {
    if p != [] && p[..|p| - 1] !in fs.tree {
      var up := p[..|p| - 1];
      assert forall k :: 0 <= k < |up| ==> up[..k] == p[..k];
      MissingIsNoEntry(fs, up);
    }
  }

  lemma {:induction false} BlockedIsNoEntry(fs: Fs, p: Path)
    requires NotThrough(fs, p)
    ensures !NoEntry(fs, p)
    decreases |p|
  {
    var k :| 0 <= k < |p| && p[..k] in fs.tree && !fs.tree[p[..k]].DirNode? && forall j :: k < j <= |p| ==> p[..j] !in fs.tree;
    var up := p[..|p| - 1];
    if k < |up| {
      assert forall j :: 0 <= j <= |up| ==> up[..j] == p[..j];
      BlockedIsNoEntry(fs, up);
    }
  }

  // ---- READ and WRITE ----

  /** A granted read gives as many bytes of the file at the offset as there are, at most 64 KiB, and EOF when
      there are none to give. */
  lemma ReadGives(options: Options, slot: nat, offset: U64, len: U32, answer: Answer, s: Snapshot, s': Snapshot)
    requires Obeys(options, Read(slot, offset, len), answer, s, s') && !s'.refused && CanRead(s, slot)
    ensures var content := s.fs.inodes[s.fds[s.handles[slot].fd].inode];
      if offset >= 0x8000_0000_0000_0000 then answer == Status(FAILURE)
      else if len == 0 || offset >= |content| then answer == Status(EOF)
      else
        && answer.Data? && |answer.bytes| <= len && |answer.bytes| <= 65536 && offset + |answer.bytes| <= |content|
        && (|answer.bytes| == len || |answer.bytes| == 65536 || offset + |answer.bytes| == |content|)
        && forall i :: 0 <= i < |answer.bytes| ==> answer.bytes[i] == content[offset + i]
  {
  }

  /** A write is granted through a handle that writes, within the cap and within what the system can address. */
  lemma WriteGrantedIff(options: Options, slot: nat, offset: U64, data: Payload, answer: Answer, s: Snapshot, s': Snapshot)
    requires Obeys(options, Write(slot, offset, data), answer, s, s') && !s'.refused
    requires IsOpen(s, slot, false) && s.fds[s.handles[slot].fd].FileFd? && s.fds[s.handles[slot].fd].inode in s.fs.inodes
    ensures answer == Status(OK) <==>
      && !options.readOnly && s.fds[s.handles[slot].fd].access != RdOnly
      && (options.maxFileSize == 0 || offset + |data| <= options.maxFileSize) && offset + |data| <= 0x7fff_ffff_ffff_ffff
    ensures !options.readOnly ==>
      (answer == Status(PERMISSION_DENIED) <==>
         options.maxFileSize != 0 && (offset + |data|) % 0x1_0000_0000_0000_0000 > options.maxFileSize)
  {
  }

  /** Byte by byte, the file afterwards: the data where it was written, what was there elsewhere, and zeros in a
      hole before it. No other file changes. */
  lemma WriteLeaves(options: Options, slot: nat, offset: U64, data: Payload, s: Snapshot, s': Snapshot)
    requires Obeys(options, Write(slot, offset, data), Status(OK), s, s') && !s'.shortWrite
    ensures var inode := s.fds[s.handles[slot].fd].inode;
      && inode in s.fs.inodes && inode in s'.fs.inodes && s'.fs.tree == s.fs.tree
      && (forall i :: i in s.fs.inodes && i != inode ==> i in s'.fs.inodes && s'.fs.inodes[i] == s.fs.inodes[i])
      && var was, now := s.fs.inodes[inode], s'.fs.inodes[inode];
        && |now| == (if data == [] || offset + |data| < |was| then |was| else offset + |data|)
        && forall i :: 0 <= i < |now| ==>
             now[i] == if offset <= i < offset + |data| then data[i - offset] else if i < |was| then was[i] else 0
  {
  }

  /** What has been written is read back. */
  lemma WrittenIsRead(options: Options, out: nat, inn: nat, offset: U64, data: Payload, len: U32, answer: Answer,
                      s: Snapshot, s': Snapshot, s'': Snapshot)
    requires Obeys(options, Write(out, offset, data), Status(OK), s, s') && !s'.shortWrite
    requires Obeys(options, Read(inn, offset, len), answer, s', s'') && !s''.refused && CanRead(s', inn)
    requires s'.fds[s'.handles[inn].fd].inode == s.fds[s.handles[out].fd].inode && 0 < |data| <= 65536 && len == |data|
    ensures answer == Data(data)
  {
    WriteLeaves(options, out, offset, data, s, s');
    ReadGives(options, inn, offset, len, answer, s', s'');
  }

  // ---- READDIR ----

  /** A batch has at most 64 names, and fewer only at the end of the directory. */
  lemma BatchIsFull(slot: nat, consumed: nat, names: seq<string>, s: Snapshot, s': Snapshot)
    requires BatchStep(slot, consumed, Names(names), s, s')
    ensures |names| <= 64 && (|names| < 64 ==> s'.fds[s.handles[slot].fd].rest == [])
    ensures forall n :: n in names ==> n == "." || n == ".." || s.handles[slot].path + [n] in s.fs.tree
  {
    StatableAreThere(s.fs, s.handles[slot].path, s.fds[s.handles[slot].fd].rest[..consumed]);
  }

  lemma {:induction false} StatableAreThere(fs: Fs, p: Path, names: seq<string>)
    ensures forall n :: n in Statable(fs, p, names) <==> n in names && (n == "." || n == ".." || p + [n] in fs.tree)
  {
    if names != [] {
      StatableAreThere(fs, p, names[..|names| - 1]);
      assert names == names[..|names| - 1] + [names[|names| - 1]];
    }
  }

  // ---- names ----

  /** Nothing but p has come, gone or changed its meaning. */
  ghost predicate OnlyName(fs: Fs, fs': Fs, p: Path) {
    && fs'.inodes == fs.inodes
    && forall q :: q != p ==> (q in fs'.tree <==> q in fs.tree) && (q in fs.tree ==> fs'.tree[q] == fs.tree[q])
  }

  predicate InDirectory(fs: Fs, p: Path) {
    p != [] && p[..|p| - 1] in fs.tree && fs.tree[p[..|p| - 1]].DirNode?
  }

  predicate IsEmpty(fs: Fs, p: Path) {
    forall q :: q in fs.tree ==> !(p < q)
  }

  /** A server that may change names, and no refused system call. */
  ghost predicate Bound(options: Options, request: Request, answer: Answer, s: Snapshot, s': Snapshot) {
    !options.readOnly && !s'.refused && Obeys(options, request, answer, s, s')
  }

  /** A read-only server changes no file, no name and nothing else of the file system, whatever it is asked. */
  lemma ReadOnlyChangesNothing(options: Options, request: Request, answer: Answer, s: Snapshot, s': Snapshot)
    requires options.readOnly && Obeys(options, request, answer, s, s')
    ensures s'.fs == s.fs
    ensures request.Write? || request.Remove? || request.Mkdir? || request.Rmdir? || request.Rename? || request.Symlink? ==>
      answer == Status(PERMISSION_DENIED)
  {
    if request.Open? {
      BitsAre(request.flags);
    }
  }

  lemma RemoveDoes(options: Options, name: string, answer: Answer, s: Snapshot, s': Snapshot)
    requires Bound(options, Remove(name), answer, s, s') && Target(options, name).Ok?
    ensures answer == Status(OK) || answer == Status(NO_SUCH_FILE)
    ensures var p := Target(options, name).value;
      && (answer == Status(OK) <==> p in s.fs.tree && !s.fs.tree[p].DirNode?)
      && (answer == Status(OK) ==> OnlyName(s.fs, s'.fs, p) && p !in s'.fs.tree)
  {
  }

  lemma MkdirDoes(options: Options, name: string, answer: Answer, s: Snapshot, s': Snapshot)
    requires Bound(options, Mkdir(name), answer, s, s') && Target(options, name).Ok? && WellFormed(s.fs)
    ensures answer == Status(OK) || answer == Status(FAILURE)
    ensures var p := Target(options, name).value;
      && (answer == Status(OK) <==> p !in s.fs.tree && InDirectory(s.fs, p))
      && (answer == Status(OK) ==>
            && OnlyName(s.fs, s'.fs, p) && p in s'.fs.tree && s'.fs.tree[p].DirNode?
            && forall q :: q in s.fs.tree ==> s.fs.tree[q] != s'.fs.tree[p])
  {
  }

  lemma RmdirDoes(options: Options, name: string, answer: Answer, s: Snapshot, s': Snapshot)
    requires Bound(options, Rmdir(name), answer, s, s') && Target(options, name).Ok?
    ensures answer == Status(OK) || answer == Status(FAILURE)
    ensures var p := Target(options, name).value;
      && (answer == Status(OK) <==> p in s.fs.tree && s.fs.tree[p].DirNode? && p != [] && IsEmpty(s.fs, p))
      && (answer == Status(OK) ==> OnlyName(s.fs, s'.fs, p) && p !in s'.fs.tree)
  {
  }

  /** READLINK gives back what SYMLINK was given. */
  lemma SymlinkDoes(options: Options, target: string, link: string, answer: Answer, s: Snapshot, s': Snapshot)
    requires Bound(options, Symlink(target, link), answer, s, s') && Target(options, link).Ok?
    ensures answer == Status(OK) || answer == Status(FAILURE)
    ensures var p := Target(options, link).value;
      && (answer == Status(OK) <==> p !in s.fs.tree && InDirectory(s.fs, p))
      && (answer == Status(OK) ==> OnlyName(s.fs, s'.fs, p) && p in s'.fs.tree)
      && (answer == Status(OK) ==> forall a, s'' :: Obeys(options, Readlink(link), a, s', s'') && !s''.refused ==> a == Name(target))
  {
  }

  /** A rename is granted if something is there, its new place is in a directory and not below it or above it, and
      what it replaces, if anything, is of its kind and empty. */
  predicate Renamable(fs: Fs, from: Path, to: Path) {
    && from in fs.tree && InDirectory(fs, to) && !(from < to) && !(to < from)
    && (from != to && to in fs.tree ==> fs.tree[from].DirNode? == fs.tree[to].DirNode? && IsEmpty(fs, to))
  }

  lemma RenamedIff(fs: Fs, from: Path, to: Path)
    ensures Renamed(fs, from, to).Some? <==> Renamable(fs, from, to)
    ensures Renamed(fs, from, from).Some? ==> Renamed(fs, from, from) == Some(fs)
  {
  }

  /** The whole subtree moves: what was at from and below is at to and below, what was at to is gone, and nothing
      else is touched. */
  lemma RenameDoes(options: Options, name: string, newName: string, answer: Answer, s: Snapshot, s': Snapshot)
    requires Bound(options, Rename(name, newName), answer, s, s')
    requires Target(options, name).Ok? && Target(options, newName).Ok?
    ensures answer == Status(OK) || answer == Status(FAILURE)
    ensures var from, to := Target(options, name).value, Target(options, newName).value;
      && (answer == Status(OK) <==> Renamable(s.fs, from, to))
      && (answer == Status(OK) ==> if from == to then s'.fs == s.fs else Moved(s.fs, s'.fs, from, to))
  {
    var from, to := Target(options, name).value, Target(options, newName).value;
    RenamedIff(s.fs, from, to);
    if answer == Status(OK) && from != to {
      assert Renamed(s.fs, from, to) == Some(s'.fs);
      RenamedMoves(s.fs, from, to);
    }
  }

  lemma RenamedMoves(fs: Fs, from: Path, to: Path)
    requires from != to && Renamed(fs, from, to).Some?
    ensures Moved(fs, Renamed(fs, from, to).value, from, to)
  {
    var fs' := Renamed(fs, from, to).value;
    forall rel: Path ensures At(fs', to + rel) == At(fs, from + rel) {
      MovedAt(fs, from, to, rel);
    }
    forall q: Path | from <= q ensures At(fs', q) == None {
      if to <= q {
        Apart(from, to, q);
      }
    }
    forall q: Path | !(from <= q) && !(to <= q) ensures At(fs', q) == At(fs, q) {
    }
  }

  /** What is below one of two paths is not below the other, unless one path is below the other. */
  lemma Apart(from: Path, to: Path, q: Path)
    requires from <= q && to <= q
    ensures from <= to || to <= from
  {
    assert |from| <= |to| ==> to[..|from|] == q[..|from|];
    assert |to| <= |from| ==> from[..|to|] == q[..|to|];
  }

  lemma MovedAt(fs: Fs, from: Path, to: Path, rel: Path)
    requires from != to && Renamed(fs, from, to).Some?
    ensures At(Renamed(fs, from, to).value, to + rel) == At(fs, from + rel)
  {
    var q, r := to + rel, from + rel;
    assert q[|to|..] == rel && r[|from|..] == rel;
    if r in fs.tree {
      assert q == to + r[|from|..];
    }
  }

  ghost predicate Moved(fs: Fs, fs': Fs, from: Path, to: Path) {
    && fs'.inodes == fs.inodes
    && (forall rel: Path :: At(fs', to + rel) == At(fs, from + rel))
    && (forall q :: from <= q ==> At(fs', q) == None)
    && (forall q :: !(from <= q) && !(to <= q) ==> At(fs', q) == At(fs, q))
  }

  function At(fs: Fs, p: Path): Option<Node> {
    if p in fs.tree then Some(fs.tree[p]) else None
  }

  // ---- one request after another ----

  predicate Asks(request: Request, slot: nat) {
    request == Fstat(slot) || request == Readdir(slot) || (request.Read? && request.handle == slot)
  }

  /** CLOSE always answers OK; the handle is gone, and every other handle is as it was. */
  lemma CloseForgets(options: Options, slot: nat, answer: Answer, s: Snapshot, s': Snapshot)
    requires Obeys(options, Close(slot), answer, s, s')
    ensures answer == Status(OK) && slot !in s'.handles && s'.fs == s.fs
    ensures forall t :: t in s.handles && t != slot ==> t in s'.handles && s'.handles[t] == s.handles[t]
  {
  }

  /** A handle that is not there answers nothing. */
  lemma UnknownIsInvalid(options: Options, slot: nat, request: Request, answer: Answer, s: Snapshot, s': Snapshot)
    requires Obeys(options, request, answer, s, s') && slot !in s.handles
    ensures Asks(request, slot) ==> answer == Status(INVALID_HANDLE)
    ensures request.Write? && request.handle == slot ==>
      answer == Status(if options.readOnly then PERMISSION_DENIED else INVALID_HANDLE)
  {
  }

  /** STAT and LSTAT tell whether a name exists, and what is there. */
  lemma StatTells(options: Options, name: string, request: Request, answer: Answer, s: Snapshot, s': Snapshot)
    requires request == Stat(name) || request == Lstat(name)
    requires Obeys(options, request, answer, s, s') && !s'.refused && Target(options, name).Ok?
    ensures answer == if Target(options, name).value in s.fs.tree then Attrs(s.fs.tree[Target(options, name).value])
                      else Status(NO_SUCH_FILE)
  {
  }

  /** REALPATH answers a name that begins with a slash and leads to the same place. */
  lemma RealpathLeadsThere(options: Options, name: string, answer: Answer, s: Snapshot, s': Snapshot)
    requires NoSlash(options.root) && Obeys(options, Realpath(name), answer, s, s')
    ensures if Target(options, name).Err? then answer == Status(NO_SUCH_FILE)
            else answer.Name? && answer.path != "" && answer.path[0] == '/' && Target(options, answer.path) == Target(options, name)
  {
    if Target(options, name).Ok? {
      ResolveStaysUnderRoot(options.root, name);
      RealpathIsFixedPoint(options.root, name);
      ClientPathReads(options.root, Target(options, name).value);
    }
  }

  /** OPENDIR is granted for a directory while there is a slot, and then READDIR lists that directory from its beginning. */
  lemma OpendirGrantedIff(options: Options, name: string, answer: Answer, s: Snapshot, s': Snapshot)
    requires Obeys(options, Opendir(name), answer, s, s') && !s'.refused
    ensures var target := Target(options, name);
      var found := target.Ok? && target.value in s.fs.tree && s.fs.tree[target.value].DirNode?;
      && (answer.Handle? <==> found && exists slot: nat :: slot < 256 && slot !in s.handles)
      && (!found ==> answer == Status(NO_SUCH_FILE)) && (found && !answer.Handle? ==> answer == Status(FAILURE))
      && s'.fs == s.fs
    ensures answer.Handle? ==>
      && answer.slot !in s.handles && answer.slot in s'.handles && s'.handles[answer.slot].fd in s'.fds
      && s'.handles[answer.slot].path == Target(options, name).value
      && var fd := s'.fds[s'.handles[answer.slot].fd];
        && fd.DirFd? && s.fs.tree[Target(options, name).value] == DirNode(fd.dir)
        && (forall q :: q in s.fs.tree.Keys && Target(options, name).value < q && |q| == |Target(options, name).value| + 1 ==>
              q[|q| - 1] in fd.rest)
        && forall i, j :: 0 <= i < j < |fd.rest| ==> fd.rest[i] != fd.rest[j]
  {
  }

  /** names are those of the next k that are there, and k fewer are left. */
  ghost predicate Gives(slot: nat, names: seq<string>, k: nat, s: Snapshot, s': Snapshot)
    requires slot in s.handles && s.handles[slot].fd in s.fds && s.fds[s.handles[slot].fd].DirFd?
    requires k <= |s.fds[s.handles[slot].fd].rest|
  {
    var fd := s.handles[slot].fd;
    && (forall n :: n in names <==>
          n in s.fds[fd].rest[..k] && (n == "." || n == ".." || s.handles[slot].path + [n] in s.fs.tree))
    && s'.handles == s.handles && fd in s'.fds && s'.fds[fd].DirFd? && s'.fds[fd].rest == s.fds[fd].rest[k..]
  }

  /** READDIR gives the next names of the stream in order, without those that are gone, and EOF at its end. */
  lemma ReaddirGives(options: Options, slot: nat, answer: Answer, s: Snapshot, s': Snapshot)
    requires Obeys(options, Readdir(slot), answer, s, s')
    requires slot in s.handles && s.handles[slot].isDir && s.handles[slot].fd in s.fds && s.fds[s.handles[slot].fd].DirFd?
    ensures var rest := s.fds[s.handles[slot].fd].rest;
      if rest == [] then answer == Status(EOF)
      else answer.Names? && exists k: nat :: 1 <= k <= |rest| && Gives(slot, answer.names, k, s, s')
  {
    var rest := s.fds[s.handles[slot].fd].rest;
    if rest != [] {
      var k: nat :| BatchStep(slot, k, answer, s, s');
      StatableAreThere(s.fs, s.handles[slot].path, rest[..k]);
      assert Gives(slot, answer.names, k, s, s');
    }
  }

  /** FSTAT of a file tells what was opened, wherever its name has gone. */
  lemma FstatTells(options: Options, slot: nat, answer: Answer, s: Snapshot, s': Snapshot)
    requires Obeys(options, Fstat(slot), answer, s, s') && !s'.refused
    requires IsOpen(s, slot, false) && s.fds[s.handles[slot].fd].FileFd?
    ensures answer == Attrs(FileNode(s.fds[s.handles[slot].fd].inode)) && s'.fs == s.fs
  {
  }

  lemma OtherIsUnsupported(options: Options, answer: Answer, s: Snapshot, s': Snapshot)
    requires Obeys(options, Other, answer, s, s')
    ensures answer == Status(OP_UNSUPPORTED) && s' == s
  {
  }
}
