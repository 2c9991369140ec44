/** try_download_tree over this library's own server: try_list and try_download with the server's cases behind
    them, down to the file system, and the local copy that comes of it. */
module RemoteTree {
  import opened Basics
  import opened Posix
  import opened SftpPath
  import opened SftpProtocol
  import Listing
  import Transfer
  import opened SftpServer
  import Tree = TreeDownload

  // ---- names ----

  /** RemotePath's operator /. */
  function Slash(path: string, child: string): string {
    path + (if path != "" && path[|path| - 1] != '/' && child != "" && child[0] != '/' then "/" else "") + child
  }

  /** A slash and a name add one component. */
  lemma {:induction false} SplitChild(s: string, name: string)
    requires '/' !in name
    ensures Split(s + "/" + name) == Split(s) + [name]
  {
    if s == "" {
      SplitFirst("", name);
      SplitFirst(name, "");
      assert s + "/" + name == "" + "/" + name;
    } else {
      assert (s + "/" + name)[1..] == s[1..] + "/" + name;
      SplitChild(s[1..], name);
    }
  }

  lemma {:induction false} StripAppend(s: string, t: string)
    requires t != "" && t[0] != '/'
    ensures StripSlashes(s + t) == StripSlashes(s) + t
  {
    if s == "" {
      assert s + t == t;
    } else {
      assert (s + t)[1..] == s[1..] + t;
      if s[0] == '/' {
        StripAppend(s[1..], t);
      }
    }
  }

  lemma {:induction false} StripKeepsEnd(s: string)
    requires StripSlashes(s) != ""
    ensures StripSlashes(s)[|StripSlashes(s)| - 1] == s[|s| - 1] && StripSlashes(s + "/") == StripSlashes(s) + "/"
  {
    assert (s + "/")[1..] == s[1..] + "/";
    if s[0] == '/' {
      StripKeepsEnd(s[1..]);
    }
  }

  /** The parent's components, without a last one that does not count. */
  function Front(path: string): seq<string> {
    var clean := StripSlashes(path);
    if clean == "" then [] else if clean[|clean| - 1] == '/' then Split(clean[..|clean| - 1]) else Split(clean)
  }

  lemma RelativeOfParent(path: string)
    ensures Relative(path) == Front(path) || Relative(path) == Front(path) + [""] || Relative(path) == Front(path) + ["."]
  {
    var clean := StripSlashes(path);
    if clean != "" && clean[|clean| - 1] == '/' {
      var parent := clean[..|clean| - 1];
      assert clean == parent + "/" + "";
      SplitChild(parent, "");
    }
  }

  lemma RelativeOfChild(path: string, name: string)
    requires IsName(name)
    ensures Relative(Slash(path, name)) == Front(path) + [name]
  {
    var clean := StripSlashes(path);
    if clean == "" {
      AllSlashes(path);
      StripAppend(path, name);
      assert Slash(path, name) == path + name && clean + name == name;
      SplitFirst(name, "");
    } else {
      StripKeepsEnd(path);
      if path[|path| - 1] == '/' {
        var parent := clean[..|clean| - 1];
        StripAppend(path, name);
        assert Slash(path, name) == path + name && clean + name == parent + "/" + name;
        SplitChild(parent, name);
      } else {
        StripAppend(path + "/", name);
        assert Slash(path, name) == path + "/" + name;
        SplitChild(clean, name);
      }
    }
  }

  /** The child is the parent and its name. */
  lemma WalkToChild(base: Path, path: string, name: string)
    requires IsName(name)
    ensures Walk(base, Relative(Slash(path, name))) == Walk(base, Relative(path)) + [name]
  {
    var front := Front(path);
    RelativeOfParent(path);
    RelativeOfChild(path, name);
    WalkAppend(base, front, [name]);
    WalkAppend(base, front, [""]);
    WalkAppend(base, front, ["."]);
    WalkOne(Walk(base, front), name);
    WalkOne(Walk(base, front), "");
    WalkOne(Walk(base, front), ".");
  }

  lemma {:induction false} AllSlashes(s: string)
    requires StripSlashes(s) == ""
    ensures s != "" ==> s[|s| - 1] == '/'
  {
    if |s| > 1 {
      AllSlashes(s[1..]);
    }
  }

  /** The server resolves the name of a child to the child of what it resolves the parent's name to. */
  lemma ChildResolves(root: seq<string>, path: string, name: string)
    requires IsName(name) && Resolve(root, path).Ok?
    ensures Resolve(root, Slash(path, name)) == Ok(Resolve(root, path).value + [name])
  {
    WalkAppend([], root, Relative(path));
    WalkAppend([], root, Relative(Slash(path, name)));
    WalkToChild(Canonical(root), path, name);
  }

  // ---- what the server's files are a tree of ----

  function Names(entries: seq<Tree.Entry>): (r: seq<string>)
    ensures |r| == |entries| && forall i :: 0 <= i < |r| ==> r[i] == entries[i].name
  {
    seq(|entries|, i requires 0 <= i < |entries| => entries[i].name)
  }

  /** entries lists what is in the directory at d, in some order, and so on below. */
  ghost predicate Describes(fs: Fs, d: Path, entries: seq<Tree.Entry>)
    decreases entries, 1
  {
    && Listing.ListsChildren(fs, d, Names(entries))
    && forall i :: 0 <= i < |entries| ==> DescribesEntry(fs, d, entries[i])
  }

  /** What an entry with an unsafe name is does not matter: it is skipped. */
  ghost predicate DescribesEntry(fs: Fs, d: Path, e: Tree.Entry)
    decreases e, 0
  {
    var p := d + [e.name];
    if !Tree.IsSafeEntryName(e.name) then e.node.SpecialNode?
    else
      p in fs.tree &&
      match fs.tree[p]
      case FileNode(inode) => inode in fs.inodes && e.node == Tree.FileNode(fs.inodes[inode])
      case DirNode(_) => e.node.DirNode? && Describes(fs, p, e.node.entries)
      case LinkNode(_) => e.node.LinkNode?
  }

  lemma {:induction false} DescribedIsWellNamed(fs: Fs, d: Path, entries: seq<Tree.Entry>)
    requires Describes(fs, d, entries)
    ensures Tree.WellNamed(entries)
    decreases entries
  {
    forall i, j | 0 <= i < j < |entries| ensures entries[i].name != entries[j].name {
      assert Names(entries)[i] != Names(entries)[j];
    }
    forall i | 0 <= i < |entries| && entries[i].node.DirNode? ensures Tree.WellNamed(entries[i].node.entries) {
      assert DescribesEntry(fs, d, entries[i]);
      DescribedIsWellNamed(fs, d + [entries[i].name], entries[i].node.entries);
    }
  }

  /** What a copy of the directory at d holds at rel: what the server has there, if it is a directory or a
      regular file that safe names and directories lead to. */
  function Mirrored(fs: Fs, d: Path, rel: Path, chunk: nat): Option<Tree.LocalNode>
    requires rel != []
    decreases |rel|
  {
    var child := d + [rel[0]];
    if !Tree.IsSafeEntryName(rel[0]) || child !in fs.tree then None
    else
      match fs.tree[child]
      case DirNode(_) => if |rel| == 1 then Some(Tree.LocalDir) else Mirrored(fs, child, rel[1..], chunk)
      case FileNode(inode) =>
        if |rel| == 1 && inode in fs.inodes then Some(Tree.LocalFile(Transfer.Moved(fs.inodes[inode], chunk))) else None
      case LinkNode(_) => None
  }

  /** However it is listed, what becomes of the directory is its mirror. */
  lemma {:induction false} ImageIsMirror(fs: Fs, d: Path, entries: seq<Tree.Entry>, p: Path, rel: Path, chunk: nat)
    requires Describes(fs, d, entries) && rel != []
    ensures Tree.At(Tree.Image(p, entries, chunk), p + rel) == Mirrored(fs, d, rel, chunk)
    decreases |rel|
  {
    var q, name := p + rel, rel[0];
    DescribedIsWellNamed(fs, d, entries);
    if name in Names(entries) {
      var i :| 0 <= i < |entries| && Names(entries)[i] == name;
      Tree.PickEntry(p, entries, i, q, chunk);
      EntryIsMirror(fs, d, entries[i], p, rel, chunk);
    } else {
      Tree.ImageUnder(p, entries, chunk);
      assert forall i :: 0 <= i < |entries| ==> entries[i].name == Names(entries)[i];
    }
  }

  lemma {:induction false} EntryIsMirror(fs: Fs, d: Path, e: Tree.Entry, p: Path, rel: Path, chunk: nat)
    requires DescribesEntry(fs, d, e) && rel != [] && rel[0] == e.name
    ensures Tree.At(Tree.EntryImage(p, e, chunk), p + rel) == Mirrored(fs, d, rel, chunk)
    decreases |rel|, 0
  {
    var child := p + [e.name];
    if |rel| == 1 {
      assert rel == [e.name];
      if e.node.DirNode? {
        Tree.ImageUnder(child, e.node.entries, chunk);
      }
    } else {
      assert child + rel[1..] == p + rel && p + rel != child;
      if Tree.IsSafeEntryName(e.name) && e.node.DirNode? {
        ImageIsMirror(fs, d + [e.name], e.node.entries, child, rel[1..], chunk);
      }
    }
  }

  // ---- the download ----

  /** What may go wrong besides the server's system calls: the number of the request that fails in the listing
      of each directory, and with which code; and how much the local file for each remote one takes. */
  datatype World = World(client: Transfer.Client, failAt: string -> nat, failCode: string -> nat, room: string -> nat)

  /** What goes wrong does not go unseen: the error of a failed listing has a code, and every file has room. */
  ghost predicate Seen(world: World, fs: Fs) {
    && (forall name :: world.failCode(name) != 0)
    && (forall name, i :: i in fs.inodes ==> |fs.inodes[i]| <= world.room(name))
  }

  /** Every listing comes to its end, and every file can be read. */
  ghost predicate Unhindered(world: World, fs: Fs) {
    && (forall name, d, order :: IsListing(fs, d, order) ==> MAX_BATCH * world.failAt(name) >= |order| + MAX_BATCH)
    && (forall i :: i in fs.inodes ==> |fs.inodes[i]| < TWO_63)
  }

  /** Everything in the tree below d. */
  ghost function Below(fs: Fs, d: Path): set<Path> {
    set q | q in fs.tree.Keys && d < q
  }

  lemma ChildHasLessBelow(fs: Fs, d: Path, name: string)
    requires d + [name] in fs.tree
    ensures |Below(fs, d + [name])| < |Below(fs, d)|
  {
    var child := d + [name];
    assert child in Below(fs, d) && child !in Below(fs, child);
    SmallerSet(Below(fs, child), Below(fs, d) - {child});
  }

  lemma SmallerSet(a: set<Path>, b: set<Path>)
    requires a <= b
    ensures |a| <= |b|
  {
    assert b == a + (b - a);
  }

  /** The measure of a download: nothing for a name that is refused. */
  ghost function Extent(fs: Fs, target: Result<Path>): nat {
    if target.Ok? then 1 + |Below(fs, target.value)| else 0
  }

  /** try_download of one regular file into the local tree. */
  method FetchFile(server: Subsystem, remote: string, local: Tree.Local, child: Path, replace: bool, chunk: nat, world: World)
    returns (r: Result<nat>)
    requires server.Valid() && Transfer.Sound(world.client)
    modifies server`handles, server`nextEntry, server`closed, server.os, server.outbox`sent, local`fs
    ensures server.Valid() && server.os.fs == old(server.os.fs) && server.handles == old(server.handles)
    ensures local.OnlyUnder(child) && (old(server.os.refused) ==> server.os.refused)
    ensures r.Ok? ==>
      && server.Target(remote).Ok? && Transfer.FileAt(server.os.fs, server.Target(remote).value).Some?
      && var content := Transfer.FileAt(server.os.fs, server.Target(remote).value).value;
        && r.value == |Transfer.Moved(content, chunk)|
        && (|content| <= world.room(remote) ==> local.fs == old(local.fs)[child := Tree.LocalFile(Transfer.Moved(content, chunk))])
    ensures old(local.CanWrite(child, replace)) && HasFreeSlot(server.handles) && server.Target(remote).Ok?
            && Transfer.FileAt(server.os.fs, server.Target(remote).value).Some?
            && |Transfer.FileAt(server.os.fs, server.Target(remote).value).value| < TWO_63 && !server.os.refused ==>
      r.Ok?
  {
    var present, opens := child in local.fs, local.CanWrite(child, true);
    var out;
    r, out := Transfer.TryDownload(server, remote, present, replace, chunk, false, opens, world.room(remote), world.client);
    if out.Some? {
      local.fs := local.fs[child := Tree.LocalFile(out.value)];
    }
  }

  /** try_list of a directory. */
  method ListDirectory(server: Subsystem, remote: string, world: World) returns (r: Result<seq<string>>)
    requires server.Valid()
    modifies server`handles, server`nextEntry, server`closed, server.os, server.outbox`sent
    ensures server.Valid() && server.os.fs == old(server.os.fs) && server.handles == old(server.handles)
    ensures old(server.os.refused) ==> server.os.refused
    ensures r.Ok? ==>
      && server.Target(remote).Ok? && Listing.IsDirectory(server.os.fs, server.Target(remote).value)
      && AreChildren(server.os.fs, server.Target(remote).value, r.value)
    ensures r.Ok? && Seen(world, server.os.fs) ==> Listing.ListsChildren(server.os.fs, server.Target(remote).value, r.value)
    ensures Unhindered(world, server.os.fs) && server.Target(remote).Ok? && !server.os.refused
            && Listing.OpensAsDir(old(server.Now()), server.Target(remote).value) ==>
      r.Ok?
  {
    r := Listing.TryList(server, remote, world.failAt(remote), world.failCode(remote));
    if r.Ok? {
      ghost var fs, d := server.os.fs, server.Target(remote).value;
      ghost var order :| IsListing(fs, d, order) && r == Listing.Collected(order, world.failAt(remote), world.failCode(remote));
      Listing.WholeListing(fs, d, order);
      CollectedAreChildren(fs, d, order, world.failAt(remote), world.failCode(remote));
    }
  }

  predicate AreChildren(fs: Fs, d: Path, names: seq<string>) {
    forall i :: 0 <= i < |names| ==> !IsDots(names[i]) && d + [names[i]] in fs.tree
  }

  /** Whole or not, what is listed is there. */
  lemma CollectedAreChildren(fs: Fs, d: Path, order: seq<string>, failAt: nat, failCode: nat)
    requires IsListing(fs, d, order) && Listing.Collected(order, failAt, failCode).Ok?
    ensures AreChildren(fs, d, Listing.Collected(order, failAt, failCode).value)
  {
    var k := Min(MAX_BATCH * failAt, |order|);
    Listing.WithoutDotsKeeps(order);
    Listing.WithoutDotsKeeps(order[..k]);
    forall names | names == Listing.WithoutDots(order) || names == Listing.WithoutDots(order[..k])
      ensures AreChildren(fs, d, names)
    {
      forall i | 0 <= i < |names| ensures !IsDots(names[i]) && CanStat(fs, d, names[i]) {
        assert names[i] in names;
      }
    }
  }

  /** The server works, its table has room, and nothing goes wrong unseen or hinders the download. */
  ghost predicate Smooth(handles: Table, world: World, fs: Fs) {
    HasFreeSlot(handles) && Seen(world, fs) && Unhindered(world, fs)
  }

  /** One entry has become its image, and is counted. */
  ghost predicate EntryDone(fs: Fs, d: Path, e: Tree.Entry, p: Path, chunk: nat, before: map<Path, Tree.LocalNode>,
                            after: map<Path, Tree.LocalNode>, stats: Tree.TreeStats)
  {
    DescribesEntry(fs, d, e) && after == before + Tree.EntryImage(p, e, chunk) && stats == Tree.EntryTally(e, chunk)
  }

  /** A directory has become its image, and is counted. */
  ghost predicate TreeDone(fs: Fs, d: Path, entries: seq<Tree.Entry>, p: Path, chunk: nat, before: map<Path, Tree.LocalNode>,
                           after: map<Path, Tree.LocalNode>, stats: Tree.TreeStats)
  {
    && Describes(fs, d, entries)
    && after == before + map[p := Tree.LocalDir] + Tree.Image(p, entries, chunk) && stats == Tree.Tally(entries, chunk)
  }

  /** What a directory becomes as an entry of its parent. */
  lemma DirectoryEntry(name: string, entries: seq<Tree.Entry>, p: Path, chunk: nat)
    requires Tree.IsSafeEntryName(name)
    ensures var e := Tree.Entry(name, Tree.DirNode(entries));
      && Tree.EntryImage(p, e, chunk) == map[p + [name] := Tree.LocalDir] + Tree.Image(p + [name], entries, chunk)
      && Tree.EntryTally(e, chunk) == Tree.Plus(Tree.TreeStats(0, 1, 0, 0), Tree.Tally(entries, chunk))
  {
  }

  lemma DirectoryDone(fs: Fs, d: Path, name: string, entries: seq<Tree.Entry>, p: Path, chunk: nat,
                      before: map<Path, Tree.LocalNode>, after: map<Path, Tree.LocalNode>, stats: Tree.TreeStats)
    requires Tree.IsSafeEntryName(name) && Listing.IsDirectory(fs, d + [name])
    requires TreeDone(fs, d + [name], entries, p + [name], chunk, before, after, stats)
    ensures EntryDone(fs, d, Tree.Entry(name, Tree.DirNode(entries)), p, chunk, before, after,
                      stats.(directories := 1 + stats.directories))
  {
    var e := Tree.Entry(name, Tree.DirNode(entries));
    var made, image := map[p + [name] := Tree.LocalDir], Tree.Image(p + [name], entries, chunk);
    calc {
      after;
      before + made + image;
      { Tree.UnionAssociates(before, made, image); }
      before + (made + image);
      { DirectoryEntry(name, entries, p, chunk); }
      before + Tree.EntryImage(p, e, chunk);
    }
    assert Tree.EntryTally(e, chunk) == stats.(directories := 1 + stats.directories) by {
      DirectoryEntry(name, entries, p, chunk);
    }
    assert DescribesEntry(fs, d, e);
  }

  lemma RegularDone(fs: Fs, d: Path, name: string, content: seq<Byte>, p: Path, chunk: nat, before: map<Path, Tree.LocalNode>)
    requires Tree.IsSafeEntryName(name) && Transfer.FileAt(fs, d + [name]) == Some(content)
    ensures EntryDone(fs, d, Tree.Entry(name, Tree.FileNode(content)), p, chunk, before,
                      before[p + [name] := Tree.LocalFile(Transfer.Moved(content, chunk))],
                      Tree.TreeStats(1, 0, |Transfer.Moved(content, chunk)|, 0))
  {
  }

  /** The body of the loop. What kind of entry it is came with the listing. */
  method FetchEntry(server: Subsystem, remote: string, name: string, local: Tree.Local, p: Path, replace: bool, chunk: nat, world: World)
    returns (r: Result<Tree.TreeStats>, ghost e: Tree.Entry)
    requires server.Valid() && Transfer.Sound(world.client)
    requires server.Target(remote).Ok? && server.Target(remote).value + [name] in server.os.fs.tree && !IsDots(name)
    modifies server`handles, server`nextEntry, server`closed, server.os, server.outbox`sent, local
    ensures server.Valid() && server.os.fs == old(server.os.fs) && server.handles == old(server.handles)
    ensures local.OnlyUnder(p) && (old(server.os.refused) ==> server.os.refused) && e.name == name
    ensures r.Ok? && Seen(world, server.os.fs) && old(local.Ready(p, name)) ==>
      EntryDone(server.os.fs, server.Target(remote).value, e, p, chunk, old(local.fs), local.fs, r.value)
    ensures Smooth(server.handles, world, server.os.fs) && old(local.Ready(p, name)) && !server.os.refused ==> r.Ok?
    decreases Extent(server.os.fs, server.Target(remote)), 0
  {
    var child := p + [name];
    e := Tree.Entry(name, Tree.SpecialNode);
    assert child[..|child| - 1] == p;
    Tree.ChildIsTextuallyUnder(p, name);
    if !Tree.IsSafeEntryName(name) || !Tree.TextuallyUnder(p, child) {
      return Ok(Tree.TreeStats(0, 0, 0, 1)), e;
    }
    ghost var d := server.Target(remote).value;
    ChildResolves(server.options.root, remote, name);
    ChildHasLessBelow(server.os.fs, d, name);
    r, e := FetchSafe(server, Slash(remote, name), name, d, local, p, replace, chunk, world);
  }

  /** One entry with a safe name. */
  method FetchSafe(server: Subsystem, remote: string, name: string, ghost d: Path, local: Tree.Local, p: Path, replace: bool,
                   chunk: nat, world: World)
    returns (r: Result<Tree.TreeStats>, ghost e: Tree.Entry)
    requires server.Valid() && Transfer.Sound(world.client)
    requires server.Target(remote) == Ok(d + [name]) && d + [name] in server.os.fs.tree && Tree.IsSafeEntryName(name)
    modifies server`handles, server`nextEntry, server`closed, server.os, server.outbox`sent, local
    ensures server.Valid() && server.os.fs == old(server.os.fs) && server.handles == old(server.handles)
    ensures local.OnlyUnder(p) && (old(server.os.refused) ==> server.os.refused) && e.name == name
    ensures r.Ok? && Seen(world, server.os.fs) && old(local.Ready(p, name)) ==>
      EntryDone(server.os.fs, d, e, p, chunk, old(local.fs), local.fs, r.value)
    ensures Smooth(server.handles, world, server.os.fs) && old(local.Ready(p, name)) && !server.os.refused ==> r.Ok?
    decreases Extent(server.os.fs, server.Target(remote)), 3
  {
    var child := p + [name];
    assert child[..|child| - 1] == p;
    ghost var fs, before := server.os.fs, local.fs;
    match server.os.fs.tree[server.Target(remote).value]
    case LinkNode(_) =>
      r, e := Ok(Tree.TreeStats(0, 0, 0, 1)), Tree.Entry(name, Tree.LinkNode);
    case DirNode(_) =>
      ghost var entries;
      r, entries := FetchTree(server, remote, local, child, replace, chunk, world);
      e := Tree.Entry(name, Tree.DirNode(entries));
      if r.Ok? {
        if TreeDone(fs, d + [name], entries, child, chunk, before, local.fs, r.value) {
          DirectoryDone(fs, d, name, entries, p, chunk, before, local.fs, r.value);
        }
        r := Ok(r.value.(directories := 1 + r.value.directories));
      }
    case FileNode(inode) =>
      var n := FetchFile(server, remote, local, child, replace, chunk, world);
      e := Tree.Entry(name, Tree.FileNode(if inode in fs.inodes then fs.inodes[inode] else []));
      if n.Ok? {
        RegularDone(fs, d, name, fs.inodes[inode], p, chunk, before);
      }
      r := if n.Err? then Err(n.code) else Ok(Tree.TreeStats(1, 0, n.value, 0));
  }

  /** The entries copied so far, and one more. */
  lemma NextOne(fs: Fs, d: Path, names: seq<string>, done: seq<Tree.Entry>, p: Path, chunk: nat, start: map<Path, Tree.LocalNode>, e: Tree.Entry)
    requires Listing.ListsChildren(fs, d, names) && SoFar(fs, d, names, done) && |done| < |names| && e.name == names[|done|]
    requires Tree.IsEmptyDir(start, p)
    ensures var now := start + Tree.Image(p, done, chunk);
      && p in now && now[p].LocalDir? && (forall q :: q in now ==> !(p + [e.name] <= q))
      && (DescribesEntry(fs, d, e) ==>
            && SoFar(fs, d, names, done + [e])
            && now + Tree.EntryImage(p, e, chunk) == start + Tree.Image(p, done + [e], chunk)
            && Tree.Plus(Tree.Tally(done, chunk), Tree.EntryTally(e, chunk)) == Tree.Tally(done + [e], chunk))
  {
    var plain := Tree.Entry(e.name, Tree.SpecialNode);
    SoFarIsWellNamed(fs, d, names, done, plain);
    Tree.NextEntry(start, p, done + [plain], |done|, chunk);
    assert (done + [plain])[..|done|] == done;
    if DescribesEntry(fs, d, e) {
      OneMore(fs, d, names, done, e);
      SoFarIsWellNamed(fs, d, names, done, e);
      Tree.NextEntry(start, p, done + [e], |done|, chunk);
      assert (done + [e])[..|done|] == done && (done + [e])[..|done| + 1] == done + [e];
    }
  }

  /** done describes the first of the names. */
  ghost predicate SoFar(fs: Fs, d: Path, names: seq<string>, done: seq<Tree.Entry>) {
    && |done| <= |names|
    && forall i :: 0 <= i < |done| ==> done[i].name == names[i] && DescribesEntry(fs, d, done[i])
  }

  lemma OneMore(fs: Fs, d: Path, names: seq<string>, done: seq<Tree.Entry>, e: Tree.Entry)
    requires SoFar(fs, d, names, done) && |done| < |names| && e.name == names[|done|] && DescribesEntry(fs, d, e)
    ensures SoFar(fs, d, names, done + [e])
  {
  }

  lemma SoFarIsWellNamed(fs: Fs, d: Path, names: seq<string>, done: seq<Tree.Entry>, e: Tree.Entry)
    requires Listing.ListsChildren(fs, d, names) && SoFar(fs, d, names, done) && |done| < |names| && e.name == names[|done|]
    requires e.node.SpecialNode? || DescribesEntry(fs, d, e)
    ensures Tree.WellNamed(done + [e])
  {
    forall i | 0 <= i < |done + [e]| && (done + [e])[i].node.DirNode? ensures Tree.WellNamed((done + [e])[i].node.entries) {
      var x := (done + [e])[i];
      assert DescribesEntry(fs, d, x);
      DescribedIsWellNamed(fs, d + [x.name], x.node.entries);
    }
  }

  lemma AllDone(fs: Fs, d: Path, names: seq<string>, done: seq<Tree.Entry>)
    requires Listing.ListsChildren(fs, d, names) && SoFar(fs, d, names, done) && |done| == |names|
    ensures Describes(fs, d, done)
  {
    assert Names(done) == names;
  }

  /** try_download_tree. Nothing outside p changes and the server's files stay as they are. If it succeeds into a
      fresh place and nothing went wrong unseen, p holds the image of the server's directory, and the statistics
      count it; and if all goes smoothly it fails only after a system call of the server's has been refused. */
  method FetchTree(server: Subsystem, remote: string, local: Tree.Local, p: Path, replace: bool, chunk: nat, world: World)
    returns (r: Result<Tree.TreeStats>, ghost entries: seq<Tree.Entry>)
    requires server.Valid() && Transfer.Sound(world.client)
    modifies server`handles, server`nextEntry, server`closed, server.os, server.outbox`sent, local
    ensures server.Valid() && server.os.fs == old(server.os.fs) && server.handles == old(server.handles)
    ensures local.OnlyUnder(p) && (old(server.os.refused) ==> server.os.refused)
    ensures r.Ok? ==> server.Target(remote).Ok? && Listing.IsDirectory(server.os.fs, server.Target(remote).value)
    ensures r.Ok? && Seen(world, server.os.fs) && old(local.Fresh(p)) ==>
      TreeDone(server.os.fs, server.Target(remote).value, entries, p, chunk, old(local.fs), local.fs, r.value)
    ensures Smooth(server.handles, world, server.os.fs) && old(local.Fresh(p)) && !server.os.refused && server.Target(remote).Ok?
            && Listing.OpensAsDir(old(server.Now()), server.Target(remote).value) ==>
      r.Ok?
    decreases Extent(server.os.fs, server.Target(remote)), 2
  {
    entries := [];
    ghost var exact := local.Fresh(p) && Seen(world, server.os.fs);
    local.CreateDirectories(p);
    ghost var start := local.fs;
    assert exact ==> start == old(local.fs) + map[p := Tree.LocalDir];
    var listing := ListDirectory(server, remote, world);
    if listing.Err? {
      return Err(listing.code), entries;
    }
    r, entries := FetchAll(server, remote, listing.value, local, p, replace, chunk, world);
    if exact && r.Ok? {
      AllDone(server.os.fs, server.Target(remote).value, listing.value, entries);
    }
  }

  /** The loop over a listing. */
  method FetchAll(server: Subsystem, remote: string, names: seq<string>, local: Tree.Local, p: Path, replace: bool, chunk: nat, world: World)
    returns (r: Result<Tree.TreeStats>, ghost entries: seq<Tree.Entry>)
    requires server.Valid() && Transfer.Sound(world.client)
    requires server.Target(remote).Ok? && AreChildren(server.os.fs, server.Target(remote).value, names)
    modifies server`handles, server`nextEntry, server`closed, server.os, server.outbox`sent, local
    ensures server.Valid() && server.os.fs == old(server.os.fs) && server.handles == old(server.handles)
    ensures local.OnlyUnder(p) && (old(server.os.refused) ==> server.os.refused)
    ensures r.Ok? && Seen(world, server.os.fs) && Tree.IsEmptyDir(old(local.fs), p)
            && Listing.ListsChildren(server.os.fs, server.Target(remote).value, names) ==>
      && SoFar(server.os.fs, server.Target(remote).value, names, entries) && |entries| == |names|
      && local.fs == old(local.fs) + Tree.Image(p, entries, chunk) && r.value == Tree.Tally(entries, chunk)
    ensures Smooth(server.handles, world, server.os.fs) && Tree.IsEmptyDir(old(local.fs), p) && !server.os.refused
            && Listing.ListsChildren(server.os.fs, server.Target(remote).value, names) ==>
      r.Ok?
    decreases Extent(server.os.fs, server.Target(remote)), 1
  {
    ghost var fs, d, start := server.os.fs, server.Target(remote).value, local.fs;
    ghost var exact := Seen(world, fs) && Tree.IsEmptyDir(start, p) && Listing.ListsChildren(fs, d, names);
    var stats := Tree.NOTHING;
    entries := [];
    for i := 0 to |names|
      invariant server.Valid() && server.os.fs == fs && server.handles == old(server.handles)
      invariant local.OnlyUnder(p) && (old(server.os.refused) ==> server.os.refused)
      invariant |entries| == i
      invariant exact ==>
        && SoFar(fs, d, names, entries)
        && local.fs == start + Tree.Image(p, entries, chunk) && stats == Tree.Tally(entries, chunk)
    {
      ghost var e := Tree.Entry(names[i], Tree.SpecialNode);
      if exact {
        NextOne(fs, d, names, entries, p, chunk, start, e);
      }
      var added;
      added, e := FetchEntry(server, remote, names[i], local, p, replace, chunk, world);
      if added.Err? {
        return Err(added.code), entries;
      }
      if exact {
        NextOne(fs, d, names, entries, p, chunk, start, e);
      }
      entries := entries + [e];
      stats := Tree.Plus(stats, added.value);
    }
    r := Ok(stats);
  }

  /** On the server plain names and directories lead from d along rel to something. */
  predicate There(fs: Fs, d: Path, rel: Path) {
    && rel != [] && d + rel in fs.tree
    && (forall k :: 0 <= k < |rel| ==> Tree.Plain(rel[k]))
    && (forall k :: 1 <= k < |rel| ==> d + rel[..k] in fs.tree && fs.tree[d + rel[..k]].DirNode?)
  }

  lemma {:induction false} MirroredMeans(fs: Fs, d: Path, rel: Path, chunk: nat)
    requires rel != []
    ensures Mirrored(fs, d, rel, chunk) ==
      if !There(fs, d, rel) then None
      else match fs.tree[d + rel]
           case DirNode(_) => Some(Tree.LocalDir)
           case FileNode(inode) =>
             if inode in fs.inodes then Some(Tree.LocalFile(if chunk == 0 then [] else fs.inodes[inode])) else None
           case LinkNode(_) => None
    decreases |rel|
  {
    var child := d + [rel[0]];
    Tree.SafeIsPlain(rel[0]);
    assert rel[..1] == [rel[0]];
    if |rel| == 1 {
      assert rel == [rel[0]];
    } else {
      var rest := rel[1..];
      MirroredMeans(fs, child, rest, chunk);
      assert child + rest == d + rel;
      ThereFurther(fs, d, rel);
    }
  }

  /** One step along the way. */
  lemma ThereFurther(fs: Fs, d: Path, rel: Path)
    requires |rel| > 1
    ensures There(fs, d, rel) <==>
      var child := d + [rel[0]];
      Tree.Plain(rel[0]) && child in fs.tree && fs.tree[child].DirNode? && There(fs, child, rel[1..])
  {
    var child, rest := d + [rel[0]], rel[1..];
    assert child + rest == d + rel && rel[..1] == [rel[0]];
    assert forall k :: 1 <= k < |rest| ==> child + rest[..k] == d + rel[..k + 1];
    assert forall k :: 0 <= k < |rest| ==> rest[k] == rel[k + 1];
    if There(fs, d, rel) {
      forall k | 1 <= k < |rest| ensures child + rest[..k] in fs.tree && fs.tree[child + rest[..k]].DirNode? {
        assert child + rest[..k] == d + rel[..k + 1];
      }
    }
    if Tree.Plain(rel[0]) && child in fs.tree && fs.tree[child].DirNode? && There(fs, child, rest) {
      forall k | 0 <= k < |rel| ensures Tree.Plain(rel[k]) {
        assert k > 0 ==> rel[k] == rest[k - 1];
      }
      forall k | 1 <= k < |rel| ensures d + rel[..k] in fs.tree && fs.tree[d + rel[..k]].DirNode? {
        assert k > 1 ==> d + rel[..k] == child + rest[..k - 1];
      }
    }
  }

  /** p is the mirror of the server's directory d: below it stands every directory and every regular file that
      plain names and directories lead to there, and nothing else, whatever the order in which the server lists it. */
  ghost predicate IsMirror(fs: Fs, d: Path, p: Path, chunk: nat, local: map<Path, Tree.LocalNode>) {
    && Tree.At(local, p) == Some(Tree.LocalDir)
    && forall q: Path :: p < q ==> IsMirrored(fs, d, q[|p|..], chunk, Tree.At(local, q))
  }

  predicate IsMirrored(fs: Fs, d: Path, rel: Path, chunk: nat, x: Option<Tree.LocalNode>) {
    match x
    case None => !There(fs, d, rel) || fs.tree[d + rel].LinkNode? || (fs.tree[d + rel].FileNode? && fs.tree[d + rel].inode !in fs.inodes)
    case Some(LocalDir) => There(fs, d, rel) && fs.tree[d + rel].DirNode?
    case Some(LocalFile(bytes)) =>
      && There(fs, d, rel) && fs.tree[d + rel].FileNode? && fs.tree[d + rel].inode in fs.inodes
      && bytes == if chunk == 0 then [] else fs.inodes[fs.tree[d + rel].inode]
  }

  lemma DoneIsMirror(fs: Fs, d: Path, entries: seq<Tree.Entry>, p: Path, chunk: nat, before: map<Path, Tree.LocalNode>,
                     after: map<Path, Tree.LocalNode>, stats: Tree.TreeStats)
    requires TreeDone(fs, d, entries, p, chunk, before, after, stats)
    requires forall q :: q in before ==> !(p < q)
    ensures IsMirror(fs, d, p, chunk, after)
  {
    var start, image := before + map[p := Tree.LocalDir], Tree.Image(p, entries, chunk);
    Tree.ImageUnder(p, entries, chunk);
    assert !Tree.SafelyBelow(p, p);
    Added(start, image, p);
    forall q: Path | p < q ensures IsMirrored(fs, d, q[|p|..], chunk, Tree.At(after, q)) {
      ImageIsMirror(fs, d, entries, p, q[|p|..], chunk);
      MirroredMeans(fs, d, q[|p|..], chunk);
      assert p + q[|p|..] == q;
      assert q !in start;
      Added(start, image, q);
    }
  }

  lemma Added(a: map<Path, Tree.LocalNode>, b: map<Path, Tree.LocalNode>, q: Path)
    ensures Tree.At(a + b, q) == if q in b then Tree.At(b, q) else Tree.At(a, q)
  {
  }

  /** The statistics tell the files, directories and bytes made, and every entry met is counted once. */
  lemma DoneIsCounted(fs: Fs, d: Path, entries: seq<Tree.Entry>, p: Path, chunk: nat)
    requires Describes(fs, d, entries)
    ensures var t := Tree.Tally(entries, chunk);
      && Tree.Tells(t, Tree.Image(p, entries, chunk))
      && t.files + t.directories + t.skipped == Tree.Listed(entries)
  {
    DescribedIsWellNamed(fs, d, entries);
    Tree.TallyTells(p, entries, chunk);
    Tree.EveryEntryCounted(entries, chunk);
  }

  /** try_download_tree into a fresh place: a mirror of the server's directory, counted entry by entry. */
  method Download(server: Subsystem, remote: string, local: Tree.Local, p: Path, replace: bool, chunk: nat, world: World)
    returns (r: Result<Tree.TreeStats>, ghost entries: seq<Tree.Entry>)
    requires server.Valid() && local.Fresh(p) && Transfer.Sound(world.client)
    modifies server`handles, server`nextEntry, server`closed, server.os, server.outbox`sent, local
    ensures server.Valid() && server.os.fs == old(server.os.fs) && server.handles == old(server.handles)
    ensures local.OnlyUnder(p)
    ensures r.Ok? ==> server.Target(remote).Ok? && Listing.IsDirectory(server.os.fs, server.Target(remote).value)
    ensures r.Ok? && Seen(world, server.os.fs) ==>
      && Describes(server.os.fs, server.Target(remote).value, entries)
      && IsMirror(server.os.fs, server.Target(remote).value, p, chunk, local.fs)
      && r.value == Tree.Tally(entries, chunk) && Tree.Tells(r.value, Tree.Image(p, entries, chunk))
      && local.fs == old(local.fs) + map[p := Tree.LocalDir] + Tree.Image(p, entries, chunk)
    ensures Smooth(server.handles, world, server.os.fs) && !server.os.refused && server.Target(remote).Ok?
            && Listing.OpensAsDir(old(server.Now()), server.Target(remote).value) ==>
      r.Ok?
  {
    ghost var before := local.fs;
    r, entries := FetchTree(server, remote, local, p, replace, chunk, world);
    if r.Ok? && Seen(world, server.os.fs) {
      DoneIsMirror(server.os.fs, server.Target(remote).value, entries, p, chunk, before, local.fs, r.value);
      DoneIsCounted(server.os.fs, server.Target(remote).value, entries, p, chunk);
    }
  }
}
