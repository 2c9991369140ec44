/** The part of a POSIX file system the SFTP server calls: a tree of names over inodes, and open
    descriptors. Symbolic links are leaves that are never followed. Any call may be refused. */
module Posix {
  import opened Basics

  /** A file or a directory has an identity that outlives its name. */
  datatype Node = FileNode(inode: nat) | DirNode(dir: nat) | LinkNode(target: string)

  datatype Fs = Fs(tree: map<Path, Node>, inodes: map<nat, seq<Byte>>, nextInode: nat)

  datatype Access = RdOnly | WrOnly | RdWr

  datatype OpenFlags = OpenFlags(access: Access, creat: bool, trunc: bool, excl: bool, append: bool)

  /** An open file, a directory opened with open(2), or a directory stream with the names it has
      still to deliver. */
  datatype Fd = FileFd(inode: nat, access: Access) | RawDirFd(dir: nat) | DirFd(dir: nat, rest: seq<string>)

  /** The same stream, with these names still to deliver. */
  function Reading(fd: Fd, rest: seq<string>): Fd {
    if fd.DirFd? then fd.(rest := rest) else fd
  }

  /** Largest off_t. */
  const OFF_MAX: nat := 0x7fff_ffff_ffff_ffff

  predicate WellFormed(fs: Fs) {
    && (forall p :: p in fs.tree && fs.tree[p].DirNode? ==> fs.tree[p].dir < fs.nextInode)
    && (forall p :: p in fs.tree && fs.tree[p].FileNode? ==> fs.tree[p].inode in fs.inodes)
    && (forall i :: i in fs.inodes ==> i < fs.nextInode)
  }

  predicate ParentIsDir(fs: Fs, p: Path) {
    |p| > 0 && p[..|p| - 1] in fs.tree && fs.tree[p[..|p| - 1]].DirNode?
  }

  predicate HasChildren(fs: Fs, p: Path) {
    exists q :: q in fs.tree.Keys && p < q
  }

  /** open(2): the file system and descriptor it yields, if it is allowed. */
  function Opened(fs: Fs, p: Path, flags: OpenFlags): Option<(Fs, Fd)> {
    if p in fs.tree then
      match fs.tree[p]
      case FileNode(inode) =>
        if flags.creat && flags.excl then None
        else Some((if flags.trunc then fs.(inodes := fs.inodes[inode := []]) else fs, FileFd(inode, flags.access)))
      case DirNode(dir) =>
        if flags.access == RdOnly && !flags.creat && !flags.trunc then Some((fs, RawDirFd(dir))) else None
      case LinkNode(_) => None
    else if flags.creat && ParentIsDir(fs, p) then
      Some((Fs(fs.tree[p := FileNode(fs.nextInode)], fs.inodes[fs.nextInode := []], fs.nextInode + 1),
            FileFd(fs.nextInode, flags.access)))
    else None
  }

  /** Whether a call that fails on p fails with ENOENT: the first component missing on the way to p is
      looked for in a directory. */
  predicate NoEntry(fs: Fs, p: Path)
    decreases |p|
  {
    p !in fs.tree &&
    (p == [] ||
     (if p[..|p| - 1] in fs.tree then fs.tree[p[..|p| - 1]].DirNode? else NoEntry(fs, p[..|p| - 1])))
  }

  predicate LinkFree(fs: Fs) {
    forall p :: p in fs.tree ==> !fs.tree[p].LinkNode?
  }

  function Unlinked(fs: Fs, p: Path): Option<Fs> {
    if p in fs.tree && !fs.tree[p].DirNode? then Some(fs.(tree := fs.tree - {p})) else None
  }

  function MadeDir(fs: Fs, p: Path): Option<Fs> {
    if p !in fs.tree && ParentIsDir(fs, p)
    then Some(fs.(tree := fs.tree[p := DirNode(fs.nextInode)], nextInode := fs.nextInode + 1)) else None
  }

  function RemovedDir(fs: Fs, p: Path): Option<Fs> {
    if p in fs.tree && fs.tree[p].DirNode? && p != [] && !HasChildren(fs, p) then Some(fs.(tree := fs.tree - {p}))
    else None
  }

  function Symlinked(fs: Fs, target: string, p: Path): Option<Fs> {
    if p !in fs.tree && ParentIsDir(fs, p) then Some(fs.(tree := fs.tree[p := LinkNode(target)])) else None
  }

  /** rename(2): the subtree at from moves to to, replacing a file or an empty directory there. */
  function Renamed(fs: Fs, from: Path, to: Path): Option<Fs> {
    if from !in fs.tree || !ParentIsDir(fs, to) || from < to || to < from then None
    else if from == to then Some(fs)
    else if to in fs.tree && (fs.tree[from].DirNode? != fs.tree[to].DirNode? || HasChildren(fs, to)) then None
    else
      var stays := map q | q in fs.tree && !(from <= q) && !(to <= q) :: fs.tree[q];
      var targets := set r | r in fs.tree && from <= r :: to + r[|from|..];
      var moved := map q | q in targets && to <= q && from + q[|to|..] in fs.tree :: fs.tree[from + q[|to|..]];
      Some(fs.(tree := stays + moved))
  }

  predicate IsDots(name: string) {
    name == "." || name == ".."
  }

  /** Whether lstat finds an entry of the directory at p. */
  predicate CanStat(fs: Fs, p: Path, name: string) {
    IsDots(name) || p + [name] in fs.tree
  }

  /** names lists the directory at p, in some order. */
  predicate IsListing(fs: Fs, p: Path, names: seq<string>) {
    && (forall i, j :: 0 <= i < j < |names| ==> names[i] != names[j])
    && "." in names && ".." in names
    && (forall n :: n in names ==> CanStat(fs, p, n))
    && (forall q :: q in fs.tree.Keys ==> p < q && |q| == |p| + 1 ==> q[|p|] in names)
  }

  /** The names of the entries in the directory at p. */
  ghost function ChildNames(fs: Fs, p: Path): set<string> {
    set q | q in fs.tree.Keys && p < q && |q| == |p| + 1 :: q[|p|]
  }

  /** Every finite set of names can be listed. */
  lemma {:induction false} InSomeOrder(names: set<string>) returns (order: seq<string>)
    ensures forall n :: n in order <==> n in names
    ensures forall i, j :: 0 <= i < j < |order| ==> order[i] != order[j]
  {
    if names == {} {
      order := [];
    } else {
      var n :| n in names;
      order := InSomeOrder(names - {n});
      order := order + [n];
    }
  }

  lemma ListingExists(fs: Fs, p: Path)
    ensures exists names :: IsListing(fs, p, names)
  {
    var names := InSomeOrder(ChildNames(fs, p) + {".", ".."});
    forall n | n in names ensures CanStat(fs, p, n) {
      if !IsDots(n) {
        var q :| q in fs.tree.Keys && p < q && |q| == |p| + 1 && q[|p|] == n;
        assert q == p + [n];
      }
    }
    assert IsListing(fs, p, names);
  }

  class Os {
    const mayRefuse: bool         // whether calls ever fail although their arguments allow them
    const mayCutShort: bool       // whether pwrite ever stores less than it was given
    var fs: Fs
    var fds: map<nat, Fd>
    var nextFd: nat
    ghost var refused: bool       // some call has failed although its arguments allowed it
    ghost var shortWrite: bool    // some pwrite stored less than it was given
    ghost var touched: set<Path>  // every path handed to a call that resolves names

    ghost predicate Valid()
      reads this
    {
      && WellFormed(fs) && (refused ==> mayRefuse) && (shortWrite ==> mayCutShort)
      && (forall d :: d in fds ==> d < nextFd)
      && (forall d :: d in fds && fds[d].FileFd? ==> fds[d].inode in fs.inodes)
    }

    constructor (fs: Fs, mayRefuse: bool, mayCutShort: bool)
      requires WellFormed(fs)
      ensures this.mayRefuse == mayRefuse && this.mayCutShort == mayCutShort
      ensures Valid() && this.fs == fs && fds == map[] && !refused && !shortWrite && touched == {}
    {
      this.mayRefuse, this.mayCutShort := mayRefuse, mayCutShort;
      this.fs, fds, nextFd, refused, shortWrite, touched := fs, map[], 0, false, false, {};
    }

    function IsDirStream(d: nat): bool
      reads this
      requires d in fds
    {
      fds[d].DirFd?
    }

    function IsPlainDir(d: nat): bool
      reads this
      requires d in fds
    {
      fds[d].RawDirFd?
    }

    function FileInode(d: nat): nat
      reads this
      requires d in fds && fds[d].FileFd?
    {
      fds[d].inode
    }

    /** absent says that the failure is ENOENT. */
    method Open(p: Path, flags: OpenFlags) returns (d: Option<nat>, absent: bool)
      requires Valid()
      modifies this`fs, this`fds, this`nextFd, this`touched, this`refused
      ensures Valid() && touched == old(touched) + {p} && (old(refused) ==> refused)
      ensures !refused ==> (d.Some? <==> Opened(old(fs), p, flags).Some?) && (d.None? ==> absent == NoEntry(fs, p))
      ensures d.None? ==> fs == old(fs) && fds == old(fds)
      ensures d.Some? ==>
        && d.value !in old(fds) && Opened(old(fs), p, flags).Some?
        && fs == Opened(old(fs), p, flags).value.0
        && fds == old(fds)[d.value := Opened(old(fs), p, flags).value.1]
    {
      touched := touched + {p};
      var result := Opened(fs, p, flags);
      var fails: bool := *;
      fails := fails && mayRefuse;
      absent := false;
      if fails || result.None? {
        refused := refused || fails;
        var other: bool := *;
        return None, if fails then other else NoEntry(fs, p);
      }
      d := Some(nextFd);
      fs, fds, nextFd := result.value.0, fds[nextFd := result.value.1], nextFd + 1;
    }

    method Opendir(p: Path) returns (d: Option<nat>)
      requires Valid()
      modifies this`fds, this`nextFd, this`touched, this`refused
      ensures Valid() && touched == old(touched) + {p} && (old(refused) ==> refused)
      ensures !refused ==> (d.Some? <==> p in fs.tree && fs.tree[p].DirNode?)
      ensures d.None? ==> fds == old(fds)
      ensures d.Some? ==>
        && p in fs.tree && fs.tree[p].DirNode?
        && d.value !in old(fds) && d.value in fds && fds == old(fds)[d.value := fds[d.value]]
        && fds[d.value].DirFd? && fs.tree[p] == DirNode(fds[d.value].dir) && IsListing(fs, p, fds[d.value].rest)
    {
      touched := touched + {p};
      var fails: bool := *;
      fails := fails && mayRefuse;
      if fails || p !in fs.tree || !fs.tree[p].DirNode? {
        refused := refused || fails;
        return None;
      }
      ListingExists(fs, p);
      var names: seq<string> :| IsListing(fs, p, names);
      d := Some(nextFd);
      fds, nextFd := fds[nextFd := DirFd(fs.tree[p].dir, names)], nextFd + 1;
    }

    /** readdir(3): the next name, or None at the end. */
    method Readdir(d: nat) returns (name: Option<string>)
      requires Valid() && d in fds && fds[d].DirFd?
      modifies this`fds
      ensures Valid()
      ensures old(fds[d].rest) == [] ==> name.None? && fds == old(fds)
      ensures old(fds[d].rest) != [] ==>
        name == Some(old(fds[d].rest[0])) && fds == old(fds)[d := Reading(old(fds[d]), old(fds[d].rest[1..]))]
    {
      var rest := fds[d].rest;
      if rest == [] {
        return None;
      }
      name := Some(rest[0]);
      fds := fds[d := Reading(fds[d], rest[1..])];
    }

    /** close(2) and closedir(3): d must be open. */
    method Close(d: nat)
      requires Valid() && d in fds
      modifies this`fds
      ensures Valid() && fds == old(fds) - {d}
    {
      fds := fds - {d};
    }

    /** pread(2) on a regular file: in full or up to the end. */
    method Pread(d: nat, len: nat, offset: int) returns (r: Result<seq<Byte>>)
      requires Valid() && d in fds
      modifies this`refused
      ensures Valid() && (old(refused) ==> refused)
      ensures !refused ==> (r.Ok? <==> fds[d].FileFd? && fds[d].access != WrOnly && offset >= 0)
      ensures r.Ok? ==>
        && fds[d].FileFd? && fds[d].access != WrOnly && offset >= 0
        && r.value == Slice(fs.inodes[fds[d].inode], offset, len)
    {
      var fails: bool := *;
      fails := fails && mayRefuse;
      if fails || offset < 0 || !fds[d].FileFd? || fds[d].access == WrOnly {
        refused := refused || fails;
        return Err(1);
      }
      r := Ok(Slice(fs.inodes[fds[d].inode], offset, len));
    }

    /** pwrite(2): stores a front part of data at offset, whatever the append flag; or fails. */
    method Pwrite(d: nat, data: seq<Byte>, offset: int) returns (r: Result<nat>)
      requires Valid() && d in fds
      modifies this`fs, this`shortWrite, this`refused
      ensures Valid() && (old(refused) ==> refused)
      ensures !refused ==>
        (r.Ok? <==> fds[d].FileFd? && fds[d].access != RdOnly && 0 <= offset && offset + |data| <= OFF_MAX)
      ensures r.Err? ==> fs == old(fs) && shortWrite == old(shortWrite)
      ensures r.Ok? ==>
        && fds[d].FileFd? && fds[d].access != RdOnly && 0 <= offset && offset + |data| <= OFF_MAX
        && r.value <= |data|
        && fs == old(fs).(inodes := old(fs).inodes[
             fds[d].inode := Overlay(old(fs).inodes[fds[d].inode], offset, data[..r.value])])
        && shortWrite == (old(shortWrite) || r.value < |data|)
    {
      var fails: bool, n: int := *, *;
      fails := fails && mayRefuse;
      n := if mayCutShort && 0 <= n <= |data| then n else |data|;
      if fails || offset < 0 || offset + |data| > OFF_MAX || !fds[d].FileFd? || fds[d].access == RdOnly {
        refused := refused || fails;
        return Err(1);
      }
      var inode := fds[d].inode;
      fs := fs.(inodes := fs.inodes[inode := Overlay(fs.inodes[inode], offset, data[..n])]);
      shortWrite := shortWrite || n < |data|;
      r := Ok(n);
    }

    /** lstat(2), and stat(2) where there is no link to follow: what it finds at p, if anything. */
    method Lstat(p: Path) returns (node: Option<Node>)
      requires Valid()
      modifies this`touched, this`refused
      ensures Valid() && touched == old(touched) + {p} && (old(refused) ==> refused)
      ensures !refused ==> (node.Some? <==> p in fs.tree)
      ensures node.Some? ==> p in fs.tree && node.value == fs.tree[p]
    {
      touched := touched + {p};
      var fails: bool := *;
      fails := fails && mayRefuse;
      refused := refused || fails;
      node := if fails || p !in fs.tree then None else Some(fs.tree[p]);
    }

    /** fstat(2). */
    method Fstat(d: nat) returns (node: Option<Node>)
      requires Valid() && d in fds && !fds[d].DirFd?
      modifies this`refused
      ensures Valid() && (old(refused) ==> refused)
      ensures !refused ==> node.Some?
      ensures node.Some? ==> node.value == if fds[d].FileFd? then FileNode(fds[d].inode) else DirNode(fds[d].dir)
    {
      var fails: bool := *;
      fails := fails && mayRefuse;
      refused := refused || fails;
      node := if fails then None else Some(if fds[d].FileFd? then FileNode(fds[d].inode) else DirNode(fds[d].dir));
    }

    /** A call that changes names only: unlink, mkdir, rmdir, rename, symlink. next is what the
        call leaves behind when it is allowed. */
    method Change(paths: set<Path>, next: Option<Fs>) returns (ok: bool)
      requires Valid() && (next.Some? ==> WellFormed(next.value) && next.value.inodes == fs.inodes)
      modifies this`fs, this`touched, this`refused
      ensures Valid() && touched == old(touched) + paths && (old(refused) ==> refused)
      ensures !refused ==> (ok <==> next.Some?)
      ensures ok ==> next == Some(fs)
      ensures !ok ==> fs == old(fs)
    {
      touched := touched + paths;
      var fails: bool := *;
      fails := fails && mayRefuse;
      if fails || next.None? {
        refused := refused || fails;
        return false;
      }
      fs := next.value;
      ok := true;
    }
  }
}
