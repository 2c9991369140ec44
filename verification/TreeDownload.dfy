/** try_download_tree: a recursive copy of a remote tree that the server describes and need not be
    trusted for, into a local directory without symbolic links. */
module TreeDownload {
  import opened Basics
  import Posix
  import SftpPath
  import Transfer

  datatype Node = DirNode(entries: seq<Entry>) | FileNode(bytes: seq<Byte>) | LinkNode | SpecialNode

  /** An entry as the server lists it; the name is whatever the server says. */
  datatype Entry = Entry(name: string, node: Node)

  datatype LocalNode = LocalDir | LocalFile(bytes: seq<Byte>)

  datatype TreeStats = TreeStats(files: nat, directories: nat, bytes: nat, skipped: nat)

  /** is_safe_entry_name. */
  predicate IsSafeEntryName(name: string) {
    name != "" && name != "." && name != ".." && '/' !in name && '\0' !in name
  }

  // ---- what should arrive ----

  /** What one entry of the directory at p becomes. */
  function EntryImage(p: Path, e: Entry, chunk: nat): map<Path, LocalNode>
    decreases e, 0
  {
    if !IsSafeEntryName(e.name) then map[]
    else
      match e.node
      case DirNode(entries) => map[p + [e.name] := LocalDir] + Image(p + [e.name], entries, chunk)
      case FileNode(bytes) => map[p + [e.name] := LocalFile(Transfer.Moved(bytes, chunk))]
      case _ => map[]
  }

  /** What the contents of a directory become: its safe-named directories and regular files. */
  function Image(p: Path, entries: seq<Entry>, chunk: nat): map<Path, LocalNode>
    decreases entries, 1
  {
    if entries == [] then map[]
    else Image(p, entries[..|entries| - 1], chunk) + EntryImage(p, entries[|entries| - 1], chunk)
  }

  /** No directory lists a name twice. */
  predicate WellNamed(entries: seq<Entry>)
    decreases entries
  {
    && (forall i, j :: 0 <= i < j < |entries| ==> entries[i].name != entries[j].name)
    && (forall i :: 0 <= i < |entries| ==> entries[i].node.DirNode? ==> WellNamed(entries[i].node.entries))
  }

  function Plus(a: TreeStats, b: TreeStats): TreeStats {
    TreeStats(a.files + b.files, a.directories + b.directories, a.bytes + b.bytes, a.skipped + b.skipped)
  }

  const NOTHING := TreeStats(0, 0, 0, 0)

  function EntryTally(e: Entry, chunk: nat): TreeStats
    decreases e, 0
  {
    if Posix.IsDots(e.name) then NOTHING
    else if !IsSafeEntryName(e.name) then TreeStats(0, 0, 0, 1)
    else
      match e.node
      case DirNode(entries) => Plus(TreeStats(0, 1, 0, 0), Tally(entries, chunk))
      case FileNode(bytes) => TreeStats(1, 0, |Transfer.Moved(bytes, chunk)|, 0)
      case _ => TreeStats(0, 0, 0, 1)
  }

  function Tally(entries: seq<Entry>, chunk: nat): TreeStats
    decreases entries, 1
  {
    if entries == [] then NOTHING
    else Plus(Tally(entries[..|entries| - 1], chunk), EntryTally(entries[|entries| - 1], chunk))
  }

  // ---- the counts account for everything ----

  /** Entries listed, other than "." and "..", in the directory and in all directories entered below it. */
  function Listed(entries: seq<Entry>): nat
    decreases entries
  {
    if entries == [] then 0
    else
      var last := entries[|entries| - 1];
      Listed(entries[..|entries| - 1]) + (if Posix.IsDots(last.name) then 0 else 1) +
      (if IsSafeEntryName(last.name) && last.node.DirNode? then Listed(last.node.entries) else 0)
  }

  /** Every listed entry is counted once: as a file, a directory, or skipped. */
  lemma {:induction false} EveryEntryCounted(entries: seq<Entry>, chunk: nat)
    ensures var t := Tally(entries, chunk); t.files + t.directories + t.skipped == Listed(entries)
    decreases entries
  {
    if entries != [] {
      var last := entries[|entries| - 1];
      EveryEntryCounted(entries[..|entries| - 1], chunk);
      if last.node.DirNode? {
        EveryEntryCounted(last.node.entries, chunk);
      }
    }
  }

  /** q lies below p, by way of safe names. */
  predicate SafelyBelow(p: Path, q: Path) {
    p < q && forall k :: |p| <= k < |q| ==> IsSafeEntryName(q[k])
  }

  predicate Lists(entries: seq<Entry>, name: string) {
    exists i :: 0 <= i < |entries| && entries[i].name == name
  }

  lemma BelowChild(p: Path, name: string, q: Path)
    requires IsSafeEntryName(name) && (q == p + [name] || SafelyBelow(p + [name], q))
    ensures SafelyBelow(p, q) && q[|p|] == name && p + [name] <= q
  {
    assert (p + [name])[|p|] == name;
  }

  lemma ListsMore(entries: seq<Entry>, name: string)
    requires entries != []
    ensures Lists(entries, entries[|entries| - 1].name)
    ensures Lists(entries[..|entries| - 1], name) ==> Lists(entries, name)
  {
    if Lists(entries[..|entries| - 1], name) {
      var i :| 0 <= i < |entries| - 1 && entries[..|entries| - 1][i].name == name;
      assert entries[i].name == name;
    }
  }

  /** Everything an entry becomes lies under its own name. */
  lemma {:induction false} EntryImageUnder(p: Path, e: Entry, chunk: nat)
    ensures forall q :: q in EntryImage(p, e, chunk) ==>
      SafelyBelow(p, q) && q[|p|] == e.name && p + [e.name] <= q && IsSafeEntryName(e.name)
    decreases e, 0
  {
    if IsSafeEntryName(e.name) {
      if e.node.DirNode? {
        ImageUnder(p + [e.name], e.node.entries, chunk);
      }
      forall q | q in EntryImage(p, e, chunk) ensures SafelyBelow(p, q) && q[|p|] == e.name && p + [e.name] <= q {
        BelowChild(p, e.name, q);
      }
    }
  }

  /** Whatever the server lists, everything it becomes lies under p, by way of safe names. */
  lemma {:induction false} ImageUnder(p: Path, entries: seq<Entry>, chunk: nat)
    ensures forall q :: q in Image(p, entries, chunk) ==> SafelyBelow(p, q) && Lists(entries, q[|p|])
    decreases entries, 1
  {
    if entries != [] {
      var front, last := entries[..|entries| - 1], entries[|entries| - 1];
      ImageUnder(p, front, chunk);
      EntryImageUnder(p, last, chunk);
      forall q | q in Image(p, entries, chunk) ensures SafelyBelow(p, q) && Lists(entries, q[|p|]) {
        assert q in EntryImage(p, last, chunk) || q in Image(p, front, chunk);
        assert SafelyBelow(p, q);
        ListsMore(entries, q[|p|]);
      }
    }
  }

  /** A name not listed yet has left nothing behind. */
  lemma NewNameIsFresh(p: Path, entries: seq<Entry>, i: nat, chunk: nat)
    requires i < |entries| && WellNamed(entries)
    ensures forall q :: q in Image(p, entries[..i], chunk) ==> !(p + [entries[i].name] <= q)
  {
    ImageUnder(p, entries[..i], chunk);
    forall q | q in Image(p, entries[..i], chunk) ensures !(p + [entries[i].name] <= q) {
      assert Lists(entries[..i], q[|p|]);
      var j :| 0 <= j < i && entries[..i][j].name == q[|p|];
      assert entries[j].name != entries[i].name && (p + [entries[i].name])[|p|] == entries[i].name;
    }
  }

  lemma WellNamedPrefix(entries: seq<Entry>, i: nat)
    requires WellNamed(entries) && i <= |entries|
    ensures WellNamed(entries[..i])
  {
  }

  // ---- the statistics, from what is made ----

  function Files(m: map<Path, LocalNode>): set<Path> {
    set q | q in m && m[q].LocalFile?
  }

  function Directories(m: map<Path, LocalNode>): set<Path> {
    set q | q in m && m[q].LocalDir?
  }

  /** The bytes of all files together. */
  ghost function Bytes(m: map<Path, LocalNode>): nat {
    if m == map[] then 0
    else
      var q :| q in m;
      Size(m[q]) + Bytes(m - {q})
  }

  function Size(x: LocalNode): nat {
    if x.LocalFile? then |x.bytes| else 0
  }

  lemma {:induction false} BytesWithout(m: map<Path, LocalNode>, q: Path)
    requires q in m
    ensures Bytes(m) == Size(m[q]) + Bytes(m - {q})
    decreases |m|
  {
    var r :| r in m && Bytes(m) == Size(m[r]) + Bytes(m - {r});
    if r != q {
      BytesWithout(m - {r}, q);
      BytesWithout(m - {q}, r);
      assert m - {r} - {q} == m - {q} - {r};
    }
  }

  lemma {:induction false} BytesOfUnion(a: map<Path, LocalNode>, b: map<Path, LocalNode>)
    requires a.Keys !! b.Keys
    ensures Bytes(a + b) == Bytes(a) + Bytes(b)
    decreases |b|
  {
    if b == map[] {
      assert a + b == a;
    } else {
      var q :| q in b;
      var rest := b - {q};
      BytesOfUnion(a, rest);
      UnionWithout(a, b, q);
      assert Bytes(a + b) == Size(b[q]) + Bytes(a + rest) by {
        BytesWithout(a + b, q);
      }
      assert Bytes(b) == Size(b[q]) + Bytes(rest) by {
        BytesWithout(b, q);
      }
    }
  }

  lemma UnionWithout(a: map<Path, LocalNode>, b: map<Path, LocalNode>, q: Path)
    requires a.Keys !! b.Keys && q in b
    ensures (a + b) - {q} == a + (b - {q}) && (a + b)[q] == b[q] && |b - {q}| < |b|
  {
    assert (b - {q}).Keys == b.Keys - {q};
  }

  lemma BothTogether(a: set<Path>, b: set<Path>, both: set<Path>)
    requires a !! b && forall q :: q in both <==> q in a || q in b
    ensures |both| == |a| + |b|
  {
    assert both == a + b;
  }

  lemma FilesOfUnion(a: map<Path, LocalNode>, b: map<Path, LocalNode>)
    requires a.Keys !! b.Keys
    ensures |Files(a + b)| == |Files(a)| + |Files(b)|
  {
    forall q: Path ensures q in Files(a + b) <==> q in Files(a) || q in Files(b) {
      assert q in b ==> (a + b)[q] == b[q];
      assert q in a && q !in b ==> (a + b)[q] == a[q];
    }
    BothTogether(Files(a), Files(b), Files(a + b));
  }

  lemma DirectoriesOfUnion(a: map<Path, LocalNode>, b: map<Path, LocalNode>)
    requires a.Keys !! b.Keys
    ensures |Directories(a + b)| == |Directories(a)| + |Directories(b)|
  {
    forall q: Path ensures q in Directories(a + b) <==> q in Directories(a) || q in Directories(b) {
      assert q in b ==> (a + b)[q] == b[q];
      assert q in a && q !in b ==> (a + b)[q] == a[q];
    }
    BothTogether(Directories(a), Directories(b), Directories(a + b));
  }

  /** The statistics say how many files were made, how many directories, and how many bytes these files have. */
  ghost predicate Tells(t: TreeStats, m: map<Path, LocalNode>) {
    t.files == |Files(m)| && t.directories == |Directories(m)| && t.bytes == Bytes(m)
  }

  lemma TellsUnion(t: TreeStats, m: map<Path, LocalNode>, t': TreeStats, m': map<Path, LocalNode>)
    requires Tells(t, m) && Tells(t', m') && m.Keys !! m'.Keys
    ensures Tells(Plus(t, t'), m + m')
  {
    FilesOfUnion(m, m');
    DirectoriesOfUnion(m, m');
    BytesOfUnion(m, m');
  }

  lemma TellsOne(q: Path, x: LocalNode, t: TreeStats)
    requires t.files == (if x.LocalFile? then 1 else 0) && t.directories == 1 - t.files && t.bytes == Size(x)
    ensures Tells(t, map[q := x])
  {
    var m := map[q := x];
    BytesWithout(m, q);
    assert m - {q} == map[];
    assert Files(m) == if x.LocalFile? then {q} else {};
    assert Directories(m) == if x.LocalDir? then {q} else {};
  }

  lemma TellsNothing(t: TreeStats)
    requires t.files == 0 && t.directories == 0 && t.bytes == 0
    ensures Tells(t, map[])
  {
    assert Files(map[]) == {} && Directories(map[]) == {};
  }

  lemma {:induction false} TallyTells(p: Path, entries: seq<Entry>, chunk: nat)
    requires WellNamed(entries)
    ensures Tells(Tally(entries, chunk), Image(p, entries, chunk))
    decreases entries, 1
  {
    if entries == [] {
      TellsNothing(NOTHING);
    } else {
      var n := |entries| - 1;
      var front, last := entries[..n], entries[n];
      WellNamedPrefix(entries, n);
      TallyTells(p, front, chunk);
      EntryTallyTells(p, last, chunk);
      NewNameIsFresh(p, entries, n, chunk);
      EntryImageUnder(p, last, chunk);
      TellsUnion(Tally(front, chunk), Image(p, front, chunk), EntryTally(last, chunk), EntryImage(p, last, chunk));
    }
  }

  lemma {:induction false} EntryTallyTells(p: Path, e: Entry, chunk: nat)
    requires e.node.DirNode? ==> WellNamed(e.node.entries)
    ensures Tells(EntryTally(e, chunk), EntryImage(p, e, chunk))
    decreases e, 0
  {
    var child := p + [e.name];
    if !IsSafeEntryName(e.name) || e.node.LinkNode? || e.node.SpecialNode? {
      TellsNothing(EntryTally(e, chunk));
    } else if e.node.FileNode? {
      TellsOne(child, LocalFile(Transfer.Moved(e.node.bytes, chunk)), EntryTally(e, chunk));
    } else {
      TallyTells(child, e.node.entries, chunk);
      ImageUnder(child, e.node.entries, chunk);
      TellsOne(child, LocalDir, TreeStats(0, 1, 0, 0));
      assert !SafelyBelow(child, child);
      TellsUnion(TreeStats(0, 1, 0, 0), map[child := LocalDir], Tally(e.node.entries, chunk), Image(child, e.node.entries, chunk));
    }
  }

  /** As many objects are created as are counted: no two entries end up in one place. */
  lemma EveryObjectCounted(p: Path, entries: seq<Entry>, chunk: nat)
    requires WellNamed(entries)
    ensures var t := Tally(entries, chunk); |Image(p, entries, chunk)| == t.files + t.directories
  {
    var image := Image(p, entries, chunk);
    TallyTells(p, entries, chunk);
    BothTogether(Files(image), Directories(image), image.Keys);
  }

  // ---- what arrives, name by name ----

  function At(m: map<Path, LocalNode>, q: Path): Option<LocalNode> {
    if q in m then Some(m[q]) else None
  }

  /** Under a listed name stands what that entry becomes. */
  lemma {:induction false} PickEntry(p: Path, entries: seq<Entry>, i: nat, q: Path, chunk: nat)
    requires i < |entries| && WellNamed(entries) && |q| > |p| && q[|p|] == entries[i].name
    ensures At(Image(p, entries, chunk), q) == At(EntryImage(p, entries[i], chunk), q)
  {
    var n := |entries| - 1;
    var front, last := entries[..n], entries[n];
    WellNamedPrefix(entries, n);
    if i == n {
      ImageUnder(p, front, chunk);
      assert !Lists(front, q[|p|]);
    } else {
      EntryImageUnder(p, last, chunk);
      PickEntry(p, front, i, q, chunk);
    }
  }

  /** A name that stays where it is put: not empty, neither "." nor "..", without slash and NUL. */
  predicate Plain(name: string) {
    name != "" && name != "." && name != ".." && forall i :: 0 <= i < |name| ==> name[i] != '/' && name[i] != '\0'
  }

  lemma SafeIsPlain(name: string)
    ensures IsSafeEntryName(name) <==> Plain(name)
    ensures IsSafeEntryName(name) <==> SftpPath.IsName(name) && '\0' !in name
  {
  }

  /** Plain names and listed directories lead along rel to node. */
  ghost predicate Leads(entries: seq<Entry>, rel: Path, node: Node)
    decreases |rel|
  {
    rel != [] && Plain(rel[0]) &&
    exists i :: 0 <= i < |entries| && entries[i].name == rel[0] &&
      if |rel| == 1 then entries[i].node == node
      else entries[i].node.DirNode? && Leads(entries[i].node.entries, rel[1..], node)
  }

  /** A directory becomes a directory, a regular file one with what the chunk size moves of it; nothing else is made. */
  predicate Becomes(node: Node, chunk: nat, x: LocalNode) {
    if x.LocalDir? then node.DirNode? else node.FileNode? && x.bytes == if chunk == 0 then [] else node.bytes
  }

  /** At every path below p local has what the entries lead to there, and nothing else. */
  ghost predicate Stands(local: map<Path, LocalNode>, p: Path, entries: seq<Entry>, chunk: nat) {
    forall rel: Path :: rel != [] ==> StandsAt(local, p, entries, rel, chunk)
  }

  ghost predicate StandsAt(local: map<Path, LocalNode>, p: Path, entries: seq<Entry>, rel: Path, chunk: nat) {
    if p + rel in local then exists node :: Leads(entries, rel, node) && Becomes(node, chunk, local[p + rel])
    else !exists node, x :: Leads(entries, rel, node) && Becomes(node, chunk, x)
  }

  lemma ImageStands(p: Path, entries: seq<Entry>, chunk: nat)
    requires WellNamed(entries)
    ensures Stands(Image(p, entries, chunk), p, entries, chunk)
  {
    forall rel: Path | rel != [] ensures StandsAt(Image(p, entries, chunk), p, entries, rel, chunk) {
      ImageStandsAt(p, entries, rel, chunk);
    }
  }

  lemma {:induction false} ImageStandsAt(p: Path, entries: seq<Entry>, rel: Path, chunk: nat)
    requires WellNamed(entries) && rel != []
    ensures StandsAt(Image(p, entries, chunk), p, entries, rel, chunk)
    decreases |rel|
  {
    SafeIsPlain(rel[0]);
    if i :| 0 <= i < |entries| && entries[i].name == rel[0] {
      PickEntry(p, entries, i, p + rel, chunk);
      EntryStandsAt(p, entries[i], rel, chunk);
      LeadsThrough(entries, i, rel);
    } else {
      ImageUnder(p, entries, chunk);
      assert (p + rel)[|p|] == rel[0];
    }
  }

  /** With distinct names there is one entry to go on by. */
  lemma LeadsThrough(entries: seq<Entry>, i: nat, rel: Path)
    requires WellNamed(entries) && i < |entries| && rel != [] && entries[i].name == rel[0]
    ensures forall node :: Leads(entries, rel, node) <==> Leads([entries[i]], rel, node)
  {
    forall node ensures Leads(entries, rel, node) <==> Leads([entries[i]], rel, node) {
      if Leads(entries, rel, node) {
        var j :| 0 <= j < |entries| && entries[j].name == rel[0] &&
          if |rel| == 1 then entries[j].node == node
          else entries[j].node.DirNode? && Leads(entries[j].node.entries, rel[1..], node);
        assert j == i && [entries[i]][0] == entries[j];
      }
      if Leads([entries[i]], rel, node) {
        assert [entries[i]][0] == entries[i];
      }
    }
  }

  lemma {:induction false} EntryStandsAt(p: Path, e: Entry, rel: Path, chunk: nat)
    requires rel != [] && rel[0] == e.name && (e.node.DirNode? ==> WellNamed(e.node.entries))
    ensures StandsAt(EntryImage(p, e, chunk), p, [e], rel, chunk)
    decreases |rel|, 0
  {
    SafeIsPlain(e.name);
    var child := p + [e.name];
    assert [e][0] == e;
    if |rel| == 1 {
      assert rel == [e.name] && p + rel == child;
      assert Plain(e.name) ==> Leads([e], rel, e.node);
      if IsSafeEntryName(e.name) && e.node.DirNode? {
        ImageUnder(child, e.node.entries, chunk);
        assert !SafelyBelow(child, child);
        assert EntryImage(p, e, chunk)[child] == LocalDir;
      }
    } else {
      assert child + rel[1..] == p + rel && p + rel != child;
      if IsSafeEntryName(e.name) && e.node.DirNode? {
        ImageStandsAt(child, e.node.entries, rel[1..], chunk);
        assert forall node :: Leads(e.node.entries, rel[1..], node) <==> Leads([e], rel, node);
      }
    }
  }

  // ---- when the copy is whole ----

  /** Every file that is copied is empty. */
  predicate AllEmpty(entries: seq<Entry>)
    decreases entries
  {
    entries == [] ||
    (AllEmpty(entries[..|entries| - 1]) &&
     var last := entries[|entries| - 1];
     IsSafeEntryName(last.name) ==>
       match last.node
       case DirNode(below) => AllEmpty(below)
       case FileNode(bytes) => bytes == []
       case _ => true)
  }

  lemma DisjointUnions(a: map<Path, LocalNode>, b: map<Path, LocalNode>, a': map<Path, LocalNode>, b': map<Path, LocalNode>)
    requires a.Keys == a'.Keys && b.Keys == b'.Keys && a.Keys !! b.Keys
    ensures a + b == a' + b' <==> a == a' && b == b'
  {
    if a + b == a' + b' {
      forall q | q in a ensures a[q] == a'[q] {
        assert (a + b)[q] == (a' + b')[q];
      }
      forall q | q in b ensures b[q] == b'[q] {
        assert (a + b)[q] == (a' + b')[q];
      }
    }
  }

  lemma {:induction false} SameKeys(p: Path, entries: seq<Entry>, chunk: nat, chunk': nat)
    ensures Image(p, entries, chunk).Keys == Image(p, entries, chunk').Keys
    decreases entries
  {
    if entries != [] {
      var last := entries[|entries| - 1];
      SameKeys(p, entries[..|entries| - 1], chunk, chunk');
      if last.node.DirNode? {
        SameKeys(p + [last.name], last.node.entries, chunk, chunk');
      }
      assert EntryImage(p, last, chunk).Keys == EntryImage(p, last, chunk').Keys;
    }
  }

  /** Chunks of size 0 copy nothing: the tree arrives as it is exactly when the chunks are larger or
      every file is empty. */
  lemma {:induction false} CopyIsWholeIff(p: Path, entries: seq<Entry>, chunk: nat)
    requires WellNamed(entries)
    ensures Image(p, entries, chunk) == Image(p, entries, 1) <==> chunk >= 1 || AllEmpty(entries)
    decreases entries
  {
    if chunk >= 1 {
      LargerChunks(p, entries, chunk);
    } else if entries != [] {
      var n := |entries| - 1;
      var front, last := entries[..n], entries[n];
      WellNamedPrefix(entries, n);
      CopyIsWholeIff(p, front, chunk);
      SameKeys(p, front, chunk, 1);
      SameKeys(p, [last], chunk, 1);
      OneEntry(p, last, chunk);
      OneEntry(p, last, 1);
      NewNameIsFresh(p, entries, n, chunk);
      EntryImageUnder(p, last, chunk);
      DisjointUnions(Image(p, front, chunk), EntryImage(p, last, chunk), Image(p, front, 1), EntryImage(p, last, 1));
      EntryIsWholeIff(p, last, chunk);
    }
  }

  lemma OneEntry(p: Path, e: Entry, chunk: nat)
    ensures Image(p, [e], chunk) == EntryImage(p, e, chunk)
  {
    assert [e][..0] == [];
  }

  lemma {:induction false} EntryIsWholeIff(p: Path, e: Entry, chunk: nat)
    requires chunk == 0 && (e.node.DirNode? ==> WellNamed(e.node.entries))
    ensures EntryImage(p, e, chunk) == EntryImage(p, e, 1) <==>
      (IsSafeEntryName(e.name) ==>
         match e.node
         case DirNode(below) => AllEmpty(below)
         case FileNode(bytes) => bytes == []
         case _ => true)
    decreases e, 2
  {
    var child := p + [e.name];
    if IsSafeEntryName(e.name) && e.node.DirNode? {
      CopyIsWholeIff(child, e.node.entries, chunk);
      SameKeys(child, e.node.entries, chunk, 1);
      ImageUnder(child, e.node.entries, chunk);
      DisjointUnions(map[child := LocalDir], Image(child, e.node.entries, chunk), map[child := LocalDir], Image(child, e.node.entries, 1));
    } else if IsSafeEntryName(e.name) && e.node.FileNode? {
      assert EntryImage(p, e, chunk)[child] == LocalFile([]) && EntryImage(p, e, 1)[child] == LocalFile(e.node.bytes);
    }
  }

  lemma {:induction false} LargerChunks(p: Path, entries: seq<Entry>, chunk: nat)
    requires chunk >= 1
    ensures Image(p, entries, chunk) == Image(p, entries, 1)
    decreases entries
  {
    if entries != [] {
      var last := entries[|entries| - 1];
      LargerChunks(p, entries[..|entries| - 1], chunk);
      if last.node.DirNode? {
        LargerChunks(p + [last.name], last.node.entries, chunk);
      }
    }
  }

  // ---- what try_list leaves out ----

  /** The entries without "." and "..". */
  function Seen(entries: seq<Entry>): seq<Entry> {
    if entries == [] then []
    else
      var last := entries[|entries| - 1];
      Seen(entries[..|entries| - 1]) + (if Posix.IsDots(last.name) then [] else [last])
  }

  lemma OneMoreEntry(p: Path, front: seq<Entry>, last: Entry, chunk: nat)
    ensures Image(p, front + [last], chunk) == Image(p, front, chunk) + EntryImage(p, last, chunk)
    ensures Tally(front + [last], chunk) == Plus(Tally(front, chunk), EntryTally(last, chunk))
    ensures Seen(front + [last]) == Seen(front) + (if Posix.IsDots(last.name) then [] else [last])
  {
    assert (front + [last])[..|front|] == front;
  }

  lemma AddNothing(a: map<Path, LocalNode>, t: TreeStats)
    ensures a + map[] == a && Plus(t, NOTHING) == t
  {
  }

  lemma DotsLeaveNothing(p: Path, e: Entry, chunk: nat)
    requires Posix.IsDots(e.name)
    ensures EntryImage(p, e, chunk) == map[] && EntryTally(e, chunk) == NOTHING
  {
  }

  /** Neither the image nor the statistics miss what try_list leaves out. */
  predicate SameWithoutDots(p: Path, entries: seq<Entry>, chunk: nat) {
    Image(p, Seen(entries), chunk) == Image(p, entries, chunk) && Tally(Seen(entries), chunk) == Tally(entries, chunk)
  }

  lemma SeenStep(p: Path, front: seq<Entry>, last: Entry, chunk: nat)
    requires SameWithoutDots(p, front, chunk)
    ensures SameWithoutDots(p, front + [last], chunk)
  {
    OneMoreEntry(p, front, last, chunk);
    if Posix.IsDots(last.name) {
      DotsLeaveNothing(p, last, chunk);
      AddNothing(Image(p, front, chunk), Tally(front, chunk));
      assert Seen(front) + [] == Seen(front);
    } else {
      OneMoreEntry(p, Seen(front), last, chunk);
    }
  }

  lemma {:induction false} SeenIsEnough(p: Path, entries: seq<Entry>, chunk: nat)
    ensures SameWithoutDots(p, entries, chunk)
  {
    if entries != [] {
      var front, last := entries[..|entries| - 1], entries[|entries| - 1];
      assert entries == front + [last];
      assert SameWithoutDots(p, front + [last], chunk) by {
        SeenIsEnough(p, front, chunk);
        SeenStep(p, front, last, chunk);
      }
    }
  }

  lemma {:induction false} SeenEntries(entries: seq<Entry>)
    ensures forall e :: e in Seen(entries) ==> e in entries && !Posix.IsDots(e.name)
    ensures WellNamed(entries) ==> WellNamed(Seen(entries))
  {
    if entries != [] {
      var front, last := entries[..|entries| - 1], entries[|entries| - 1];
      SeenEntries(front);
      if WellNamed(entries) {
        WellNamedPrefix(entries, |entries| - 1);
        forall e | e in front ensures e.name != last.name {
        }
      }
    }
  }

  // ---- what may go wrong ----

  /** How a listing ends: with all entries, with an error, or as if the directory had only the first so many. */
  datatype Stop = Through | Refused | After(n: nat)

  /** What may go wrong at each place of the local tree: how the listing that belongs there ends, after how many
      bytes the transfer of the file there fails, if it does, and how many bytes the local file takes. */
  datatype World = World(lists: Path -> Stop, breaks: Path -> Option<nat>, room: Path -> nat)

  function Cut(stop: Stop, entries: seq<Entry>): seq<Entry> {
    if stop.After? && stop.n < |entries| then entries[..stop.n] else entries
  }

  /** The tree as it gets through to p: of every listing what comes of it, and of every file what keep says. */
  function View(world: World, keep: (Path, seq<Byte>) -> seq<Byte>, p: Path, entries: seq<Entry>): seq<Entry>
    decreases entries, 2
  {
    ViewAll(world, keep, p, Cut(world.lists(p), entries))
  }

  function ViewAll(world: World, keep: (Path, seq<Byte>) -> seq<Byte>, p: Path, listed: seq<Entry>): (r: seq<Entry>)
    ensures |r| == |listed|
    decreases listed, 1
  {
    seq(|listed|, i requires 0 <= i < |listed| => ViewEntry(world, keep, p, listed[i]))
  }

  function ViewEntry(world: World, keep: (Path, seq<Byte>) -> seq<Byte>, p: Path, e: Entry): (r: Entry)
    ensures r.name == e.name
    decreases e, 0
  {
    var child := p + [e.name];
    match e.node
    case DirNode(entries) => Entry(e.name, DirNode(View(world, keep, child, entries)))
    case FileNode(bytes) => Entry(e.name, FileNode(keep(child, bytes)))
    case _ => e
  }

  /** All that is received counts; what the local file takes of it arrives. */
  function Received(): (Path, seq<Byte>) -> seq<Byte> {
    (q, bytes) => bytes
  }

  function Arriving(world: World, chunk: nat): (Path, seq<Byte>) -> seq<Byte> {
    (q, bytes) => Transfer.Passed(Transfer.Moved(bytes, chunk), world.room(q))
  }

  /** What the local tree gets, and what is counted. */
  function Arrived(world: World, p: Path, entries: seq<Entry>, chunk: nat): map<Path, LocalNode> {
    Image(p, View(world, Arriving(world, chunk), p, entries), 1)
  }

  function Counted(world: World, p: Path, entries: seq<Entry>, chunk: nat): TreeStats {
    Tally(View(world, Received(), p, entries), chunk)
  }

  /** A listing or a transfer that the download comes to fails. */
  predicate Fails(world: World, p: Path, entries: seq<Entry>)
    decreases entries, 2
  {
    world.lists(p).Refused? || AnyFails(world, p, Cut(world.lists(p), entries))
  }

  predicate AnyFails(world: World, p: Path, listed: seq<Entry>)
    decreases listed, 1
  {
    exists i :: 0 <= i < |listed| && EntryFails(world, p, listed[i])
  }

  predicate EntryFails(world: World, p: Path, e: Entry)
    decreases e, 0
  {
    var child := p + [e.name];
    IsSafeEntryName(e.name) &&
    match e.node
    case DirNode(entries) => Fails(world, child, entries)
    case FileNode(_) => world.breaks(child).Some?
    case _ => false
  }

  /** Nothing is cut short without an error. */
  predicate Shown(world: World, p: Path, entries: seq<Entry>, chunk: nat)
    decreases entries, 2
  {
    && Cut(world.lists(p), entries) == entries
    && forall i :: 0 <= i < |entries| ==> EntryShown(world, p, entries[i], chunk)
  }

  predicate EntryShown(world: World, p: Path, e: Entry, chunk: nat)
    decreases e, 0
  {
    var child := p + [e.name];
    match e.node
    case DirNode(entries) => Shown(world, child, entries, chunk)
    case FileNode(bytes) => |Transfer.Moved(bytes, chunk)| <= world.room(child)
    case _ => true
  }

  lemma {:induction false} ViewIsWellNamed(world: World, keep: (Path, seq<Byte>) -> seq<Byte>, p: Path, entries: seq<Entry>)
    requires WellNamed(entries)
    ensures WellNamed(View(world, keep, p, entries))
    decreases entries, 2
  {
    var listed := Cut(world.lists(p), entries);
    WellNamedPrefix(entries, |listed|);
    assert listed == entries[..|listed|];
    ViewAllIsWellNamed(world, keep, p, listed);
  }

  lemma {:induction false} ViewAllIsWellNamed(world: World, keep: (Path, seq<Byte>) -> seq<Byte>, p: Path, listed: seq<Entry>)
    requires WellNamed(listed)
    ensures WellNamed(ViewAll(world, keep, p, listed))
    decreases listed, 1
  {
    var view := ViewAll(world, keep, p, listed);
    forall i | 0 <= i < |view| && view[i].node.DirNode? ensures WellNamed(view[i].node.entries) {
      ViewIsWellNamed(world, keep, p + [listed[i].name], listed[i].node.entries);
    }
  }

  lemma ViewAllAppend(world: World, keep: (Path, seq<Byte>) -> seq<Byte>, p: Path, front: seq<Entry>, last: Entry)
    ensures ViewAll(world, keep, p, front + [last]) == ViewAll(world, keep, p, front) + [ViewEntry(world, keep, p, last)]
  {
  }

  /** What try_list leaves out does not matter to the view either. */
  lemma {:induction false} SeenOfView(world: World, keep: (Path, seq<Byte>) -> seq<Byte>, p: Path, listed: seq<Entry>)
    ensures Seen(ViewAll(world, keep, p, listed)) == ViewAll(world, keep, p, Seen(listed))
  {
    if listed != [] {
      var front, last := listed[..|listed| - 1], listed[|listed| - 1];
      SeenOfView(world, keep, p, front);
      assert front + [last] == listed;
      ViewAllAppend(world, keep, p, front, last);
      ViewAllAppend(world, keep, p, Seen(front), last);
      var viewed := ViewAll(world, keep, p, front);
      assert (viewed + [ViewEntry(world, keep, p, last)])[..|front|] == viewed;
      assert Seen(front) + [] == Seen(front);
    }
  }

  /** A failure among the entries is one among those that are seen: "." and ".." do not fail. */
  lemma {:induction false} SeenFail(world: World, p: Path, listed: seq<Entry>)
    ensures AnyFails(world, p, Seen(listed)) <==> AnyFails(world, p, listed)
  {
    if listed != [] {
      var front, last := listed[..|listed| - 1], listed[|listed| - 1];
      SeenFail(world, p, front);
      assert front + [last] == listed;
      AnyFailsAppend(world, p, front, last);
      AnyFailsAppend(world, p, Seen(front), last);
      assert Posix.IsDots(last.name) ==> !EntryFails(world, p, last);
      assert Seen(front) + [] == Seen(front);
    }
  }

  lemma AnyFailsAppend(world: World, p: Path, front: seq<Entry>, last: Entry)
    ensures AnyFails(world, p, front + [last]) <==> AnyFails(world, p, front) || EntryFails(world, p, last)
  {
    var all := front + [last];
    if AnyFails(world, p, front) {
      var i :| 0 <= i < |front| && EntryFails(world, p, front[i]);
      assert all[i] == front[i];
    }
    assert all[|front|] == last;
  }

  /** What is seen of a listing becomes what the whole listing does. */
  lemma SeenArrives(world: World, p: Path, entries: seq<Entry>, chunk: nat)
    ensures var seen := Seen(Cut(world.lists(p), entries));
      && Image(p, ViewAll(world, Arriving(world, chunk), p, seen), 1) == Arrived(world, p, entries, chunk)
      && Tally(ViewAll(world, Received(), p, seen), chunk) == Counted(world, p, entries, chunk)
  {
    var listed := Cut(world.lists(p), entries);
    SeenOfView(world, Arriving(world, chunk), p, listed);
    SeenOfView(world, Received(), p, listed);
    SeenIsEnough(p, View(world, Arriving(world, chunk), p, entries), 1);
    SeenIsEnough(p, View(world, Received(), p, entries), chunk);
  }

  /** With nothing cut short unseen, all arrives and all is counted. */
  lemma {:induction false} ShownArrives(world: World, p: Path, entries: seq<Entry>, chunk: nat)
    requires Shown(world, p, entries, chunk)
    ensures Arrived(world, p, entries, chunk) == Image(p, entries, chunk)
    ensures Counted(world, p, entries, chunk) == Tally(entries, chunk)
    decreases entries, 2
  {
    ShownAllArrive(world, p, entries, chunk);
  }

  lemma {:induction false} ShownAllArrive(world: World, p: Path, listed: seq<Entry>, chunk: nat)
    requires forall i :: 0 <= i < |listed| ==> EntryShown(world, p, listed[i], chunk)
    ensures Image(p, ViewAll(world, Arriving(world, chunk), p, listed), 1) == Image(p, listed, chunk)
    ensures Tally(ViewAll(world, Received(), p, listed), chunk) == Tally(listed, chunk)
    decreases listed, 1
  {
    if listed != [] {
      var front, last := listed[..|listed| - 1], listed[|listed| - 1];
      ShownAllArrive(world, p, front, chunk);
      EntryArrives(world, p, last, chunk);
      assert front + [last] == listed;
      ViewAllAppend(world, Arriving(world, chunk), p, front, last);
      ViewAllAppend(world, Received(), p, front, last);
      OneMoreEntry(p, front, last, chunk);
      OneMoreEntry(p, ViewAll(world, Arriving(world, chunk), p, front), ViewEntry(world, Arriving(world, chunk), p, last), 1);
      OneMoreEntry(p, ViewAll(world, Received(), p, front), ViewEntry(world, Received(), p, last), chunk);
    }
  }

  lemma {:induction false} EntryArrives(world: World, p: Path, e: Entry, chunk: nat)
    requires EntryShown(world, p, e, chunk)
    ensures EntryImage(p, ViewEntry(world, Arriving(world, chunk), p, e), 1) == EntryImage(p, e, chunk)
    ensures EntryTally(ViewEntry(world, Received(), p, e), chunk) == EntryTally(e, chunk)
    decreases e, 0
  {
    var child := p + [e.name];
    if e.node.DirNode? {
      ShownArrives(world, child, e.node.entries, chunk);
    } else if e.node.FileNode? {
      var moved := Transfer.Moved(e.node.bytes, chunk);
      assert moved[..|moved|] == moved;
    }
  }

  // ---- the download ----

  function JoinPath(p: Path): string {
    if p == [] then "" else JoinPath(p[..|p| - 1]) + "/" + p[|p| - 1]
  }

  /** The textual containment test on the canonical paths. */
  predicate TextuallyUnder(root: Path, child: Path) {
    JoinPath(root) <= JoinPath(child)
  }

  class Local {
    var fs: map<Path, LocalNode>

    /** Nothing but p changed, and what is below it. */
    twostate predicate OnlyUnder(p: Path)
      reads this
    {
      forall q :: !(p <= q) ==> (q in fs <==> q in old(fs)) && (q in fs ==> fs[q] == old(fs[q]))
    }

    /** p is free, or an empty directory, in a directory. */
    ghost predicate Fresh(p: Path)
      reads this
    {
      && (forall q :: q in fs ==> !(p < q))
      && (if p in fs then fs[p].LocalDir? else |p| > 0 && p[..|p| - 1] in fs && fs[p[..|p| - 1]].LocalDir?)
    }

    /** p is a directory, and nothing stands at the name below it. */
    ghost predicate Ready(p: Path, name: string)
      reads this
    {
      p in fs && fs[p].LocalDir? && forall q :: q in fs ==> !(p + [name] <= q)
    }

    constructor (fs: map<Path, LocalNode>)
      ensures this.fs == fs
    {
      this.fs := fs;
    }

    /** create_directories; its error is ignored. */
    method CreateDirectories(p: Path)
      modifies this`fs
      ensures OnlyUnder(p)
      ensures fs == if p !in old(fs) && |p| > 0 && p[..|p| - 1] in old(fs) && old(fs[p[..|p| - 1]]).LocalDir?
                    then old(fs)[p := LocalDir] else old(fs)
    {
      if p !in fs && |p| > 0 && p[..|p| - 1] in fs && fs[p[..|p| - 1]].LocalDir? {
        fs := fs[p := LocalDir];
      }
    }

    /** A file can be written at p: p is in a directory, and free, or a file that may be replaced. */
    predicate CanWrite(p: Path, replace: bool)
      reads this
    {
      && |p| > 0 && p[..|p| - 1] in fs && fs[p[..|p| - 1]].LocalDir?
      && (p in fs ==> fs[p].LocalFile? && replace)
    }

    /** try_download of one regular file: replaces what is there, unless that is a directory or must not
        be replaced. If the transfer breaks a front part may be left; and so it may, silently, when the local
        file does not take all of it. */
    method DownloadFile(world: World, p: Path, bytes: seq<Byte>, replace: bool, chunk: nat) returns (r: Result<nat>)
      modifies this
      ensures OnlyUnder(p)
      ensures r.Ok? <==> old(CanWrite(p, replace)) && world.breaks(p).None?
      ensures r.Ok? ==> r.value == |Transfer.Moved(bytes, chunk)| && fs == old(fs)[p := LocalFile(Arriving(world, chunk)(p, bytes))]
    {
      if !CanWrite(p, replace) {
        return Err(1);
      }
      var moved := Transfer.Moved(bytes, chunk);
      var got := if world.breaks(p).Some? then Transfer.Passed(moved, world.breaks(p).value) else moved;
      fs := fs[p := LocalFile(Transfer.Passed(got, world.room(p)))];
      r := if world.breaks(p).Some? then Err(1) else Ok(|moved|);
    }
  }

  /** try_list: the entries other than "." and "..", or an error, or silently only the first of them. */
  method ListRemote(world: World, p: Path, entries: seq<Entry>) returns (r: Result<seq<Entry>>)
    ensures r == if world.lists(p).Refused? then Err(1) else Ok(Seen(Cut(world.lists(p), entries)))
  {
    r := if world.lists(p).Refused? then Err(1) else Ok(Seen(Cut(world.lists(p), entries)));
  }

  lemma {:induction false} ChildIsTextuallyUnder(p: Path, name: string)
    ensures TextuallyUnder(p, p + [name])
  {
    assert (p + [name])[..|p|] == p;
  }

  /** One entry has become what arrives of it, and what is received is counted. */
  predicate EntryDone(world: World, p: Path, e: Entry, chunk: nat, before: map<Path, LocalNode>, after: map<Path, LocalNode>,
                      stats: TreeStats)
  {
    && after == before + EntryImage(p, ViewEntry(world, Arriving(world, chunk), p, e), 1)
    && stats == EntryTally(ViewEntry(world, Received(), p, e), chunk)
  }

  /** The body of the loop: one entry, and what it adds to the statistics. */
  method DownloadEntry(local: Local, world: World, entry: Entry, p: Path, replace: bool, chunk: nat) returns (r: Result<TreeStats>)
    requires !Posix.IsDots(entry.name)
    modifies local
    ensures local.OnlyUnder(p)
    ensures old(local.Ready(p, entry.name)) && (entry.node.DirNode? ==> WellNamed(entry.node.entries)) ==>
      && (r.Ok? <==> !EntryFails(world, p, entry))
      && (r.Ok? ==> EntryDone(world, p, entry, chunk, old(local.fs), local.fs, r.value))
    decreases entry, 0
  {
    var child := p + [entry.name];
    assert child[..|child| - 1] == p;
    ChildIsTextuallyUnder(p, entry.name);
    if !IsSafeEntryName(entry.name) || !TextuallyUnder(p, child) || entry.node.LinkNode? {
      return Ok(TreeStats(0, 0, 0, 1));
    }
    if entry.node.DirNode? {
      ghost var before := local.fs;
      r := DownloadTree(local, world, entry.node.entries, child, replace, chunk);
      if r.Ok? {
        UnionAssociates(before, map[child := LocalDir], Arrived(world, child, entry.node.entries, chunk));
        r := Ok(r.value.(directories := 1 + r.value.directories));
      }
    } else if entry.node.FileNode? {
      var n := local.DownloadFile(world, child, entry.node.bytes, replace, chunk);
      r := if n.Err? then Err(n.code) else Ok(TreeStats(1, 0, n.value, 0));
    } else {
      r := Ok(TreeStats(0, 0, 0, 1));
    }
  }

  lemma UnionAssociates(a: map<Path, LocalNode>, b: map<Path, LocalNode>, c: map<Path, LocalNode>)
    ensures a + b + c == a + (b + c)
  {
  }

  /** The part of a listing copied so far is in place, and the next name is free. */
  lemma NextEntry(start: map<Path, LocalNode>, p: Path, entries: seq<Entry>, i: nat, chunk: nat)
    requires i < |entries| && WellNamed(entries)
    requires IsEmptyDir(start, p)
    ensures var fs := start + Image(p, entries[..i], chunk);
      && p in fs && fs[p].LocalDir? && (forall q :: q in fs ==> !(p + [entries[i].name] <= q))
      && fs + EntryImage(p, entries[i], chunk) == start + Image(p, entries[..i + 1], chunk)
      && Plus(Tally(entries[..i], chunk), EntryTally(entries[i], chunk)) == Tally(entries[..i + 1], chunk)
  {
    ImageUnder(p, entries[..i], chunk);
    NewNameIsFresh(p, entries, i, chunk);
    UnionAssociates(start, Image(p, entries[..i], chunk), EntryImage(p, entries[i], chunk));
    assert entries[..i + 1][..i] == entries[..i];
    assert forall q :: q in start && p + [entries[i].name] <= q ==> p < q;
  }

  /** The account of the loop: the first i entries seen have arrived and are counted, and none has failed. */
  predicate SoFar(world: World, p: Path, seen: seq<Entry>, i: nat, chunk: nat, start: map<Path, LocalNode>,
                  now: map<Path, LocalNode>, stats: TreeStats)
    requires i <= |seen|
  {
    && now == start + Image(p, ViewAll(world, Arriving(world, chunk), p, seen)[..i], 1)
    && stats == Tally(ViewAll(world, Received(), p, seen)[..i], chunk)
    && forall j :: 0 <= j < i ==> !EntryFails(world, p, seen[j])
  }

  lemma NoneYet(world: World, p: Path, seen: seq<Entry>, chunk: nat, start: map<Path, LocalNode>)
    ensures SoFar(world, p, seen, 0, chunk, start, start, NOTHING)
  {
  }

  /** The next entry's place is free, and if it is done as it should be, the account holds for it too. */
  lemma OneMore(world: World, p: Path, seen: seq<Entry>, i: nat, chunk: nat, start: map<Path, LocalNode>,
                now: map<Path, LocalNode>, stats: TreeStats, now': map<Path, LocalNode>, added: TreeStats)
    requires i < |seen| && WellNamed(seen) && SoFar(world, p, seen, i, chunk, start, now, stats)
    requires IsEmptyDir(start, p)
    ensures p in now && now[p].LocalDir? && forall q :: q in now ==> !(p + [seen[i].name] <= q)
    ensures !EntryFails(world, p, seen[i]) && EntryDone(world, p, seen[i], chunk, now, now', added) ==>
      SoFar(world, p, seen, i + 1, chunk, start, now', Plus(stats, added))
  {
    var arriving, received := ViewAll(world, Arriving(world, chunk), p, seen), ViewAll(world, Received(), p, seen);
    ViewAllIsWellNamed(world, Arriving(world, chunk), p, seen);
    ViewAllIsWellNamed(world, Received(), p, seen);
    NextEntry(start, p, arriving, i, 1);
    NextEntry(start, p, received, i, chunk);
  }

  lemma AllDone(world: World, p: Path, seen: seq<Entry>, chunk: nat, start: map<Path, LocalNode>,
                now: map<Path, LocalNode>, stats: TreeStats)
    requires SoFar(world, p, seen, |seen|, chunk, start, now, stats)
    ensures now == start + Image(p, ViewAll(world, Arriving(world, chunk), p, seen), 1)
    ensures stats == Tally(ViewAll(world, Received(), p, seen), chunk) && !AnyFails(world, p, seen)
  {
    var arriving, received := ViewAll(world, Arriving(world, chunk), p, seen), ViewAll(world, Received(), p, seen);
    assert arriving[..|seen|] == arriving && received[..|seen|] == received;
  }

  /** p is a directory, and below it stands just what the entries lead to. */
  ghost predicate Holds(local: map<Path, LocalNode>, p: Path, entries: seq<Entry>, chunk: nat) {
    At(local, p) == Some(LocalDir) && Stands(local, p, entries, chunk)
  }

  lemma ImageHolds(before: map<Path, LocalNode>, p: Path, entries: seq<Entry>, chunk: nat)
    requires WellNamed(entries) && forall q :: q in before ==> !(p < q)
    ensures Holds(before + map[p := LocalDir] + Image(p, entries, chunk), p, entries, chunk)
  {
    var image := Image(p, entries, chunk);
    var after := before + map[p := LocalDir] + image;
    ImageStands(p, entries, chunk);
    ImageUnder(p, entries, chunk);
    assert !SafelyBelow(p, p);
    forall rel: Path | rel != [] ensures StandsAt(after, p, entries, rel, chunk) {
      assert StandsAt(image, p, entries, rel, chunk) && p < p + rel;
    }
  }

  /** What try_list gives decides everything: what may fail, what arrives and what is counted. */
  lemma ListingIsEnough(world: World, p: Path, entries: seq<Entry>, seen: seq<Entry>, chunk: nat)
    requires !world.lists(p).Refused? && seen == Seen(Cut(world.lists(p), entries))
    ensures forall e :: e in seen ==> e in entries && !Posix.IsDots(e.name)
    ensures WellNamed(entries) ==> WellNamed(seen)
    ensures Fails(world, p, entries) <==> AnyFails(world, p, seen)
    ensures Image(p, ViewAll(world, Arriving(world, chunk), p, seen), 1) == Arrived(world, p, entries, chunk)
    ensures Tally(ViewAll(world, Received(), p, seen), chunk) == Counted(world, p, entries, chunk)
  {
    var listed := Cut(world.lists(p), entries);
    SeenEntries(listed);
    SeenFail(world, p, listed);
    SeenArrives(world, p, entries, chunk);
    if WellNamed(entries) {
      WellNamedPrefix(entries, |listed|);
      assert listed == entries[..|listed|];
    }
  }

  /** Downloads the directory described by entries into p. Nothing outside p changes, whatever the server lists
      and whatever goes wrong. Into a fresh place it succeeds exactly when no listing and no transfer that it
      comes to fails; p then holds exactly the safe-named directories and regular files of what has come
      through, and the statistics count them. */
  method DownloadTree(local: Local, world: World, entries: seq<Entry>, p: Path, replace: bool, chunk: nat)
    returns (r: Result<TreeStats>)
    modifies local
    ensures local.OnlyUnder(p)
    ensures old(local.Fresh(p)) && WellNamed(entries) ==>
      && (r.Ok? <==> !Fails(world, p, entries))
      && (r.Ok? ==>
            && local.fs == old(local.fs) + map[p := LocalDir] + Arrived(world, p, entries, chunk)
            && r.value == Counted(world, p, entries, chunk))
    decreases entries, 2
  {
    ghost var exact := local.Fresh(p) && WellNamed(entries);
    local.CreateDirectories(p);
    ghost var start := local.fs;
    assert exact ==> start == old(local.fs) + map[p := LocalDir];
    var listing := ListRemote(world, p, entries);
    if listing.Err? {
      return Err(listing.code);
    }
    ListingIsEnough(world, p, entries, listing.value, chunk);
    r := DownloadAll(local, world, listing.value, entries, p, replace, chunk);
  }

  /** The loop over a listing. */
  method DownloadAll(local: Local, world: World, seen: seq<Entry>, ghost entries: seq<Entry>, p: Path, replace: bool, chunk: nat)
    returns (r: Result<TreeStats>)
    requires forall e :: e in seen ==> e in entries && !Posix.IsDots(e.name)
    modifies local
    ensures local.OnlyUnder(p)
    ensures IsEmptyDir(old(local.fs), p) && WellNamed(seen) ==>
      && (r.Ok? <==> !AnyFails(world, p, seen))
      && (r.Ok? ==>
            && local.fs == old(local.fs) + Image(p, ViewAll(world, Arriving(world, chunk), p, seen), 1)
            && r.value == Tally(ViewAll(world, Received(), p, seen), chunk))
    decreases entries, 1
  {
    ghost var exact, start := IsEmptyDir(local.fs, p) && WellNamed(seen), local.fs;
    var stats := NOTHING;
    NoneYet(world, p, seen, chunk, start);
    for i := 0 to |seen|
      invariant local.OnlyUnder(p)
      invariant exact ==> SoFar(world, p, seen, i, chunk, start, local.fs, stats)
    {
      assert seen[i] in seen;
      ghost var before := local.fs;
      if exact {
        OneMore(world, p, seen, i, chunk, start, before, stats, before, NOTHING);
      }
      var added := DownloadEntry(local, world, seen[i], p, replace, chunk);
      if added.Err? {
        return Err(added.code);
      }
      if exact {
        OneMore(world, p, seen, i, chunk, start, before, stats, local.fs, added.value);
      }
      stats := Plus(stats, added.value);
    }
    if exact {
      AllDone(world, p, seen, chunk, start, local.fs, stats);
    }
    r := Ok(stats);
  }

  /** p is a directory with nothing below it. */
  predicate IsEmptyDir(local: map<Path, LocalNode>, p: Path) {
    p in local && local[p].LocalDir? && forall q :: q in local ==> !(p < q)
  }

  /** try_download_tree into a fresh place, in terms of names: below p stands what plain names and directories of
      what came through lead to, and nothing else. If nothing was cut short unseen that is what the server lists,
      and the statistics tell the files, directories and bytes made. */
  method Download(local: Local, world: World, entries: seq<Entry>, p: Path, replace: bool, chunk: nat)
    returns (r: Result<TreeStats>)
    requires local.Fresh(p) && WellNamed(entries)
    modifies local
    ensures local.OnlyUnder(p) && (r.Ok? <==> !Fails(world, p, entries))
    ensures r.Ok? ==> Holds(local.fs, p, View(world, Arriving(world, chunk), p, entries), 1)
    ensures r.Ok? && Shown(world, p, entries, chunk) ==>
      && Holds(local.fs, p, entries, chunk) && Tells(r.value, Image(p, entries, chunk))
      && local.fs == old(local.fs) + map[p := LocalDir] + Image(p, entries, chunk)
  {
    ghost var before := local.fs;
    r := DownloadTree(local, world, entries, p, replace, chunk);
    ViewIsWellNamed(world, Arriving(world, chunk), p, entries);
    ImageHolds(before, p, View(world, Arriving(world, chunk), p, entries), 1);
    if Shown(world, p, entries, chunk) {
      ShownArrives(world, p, entries, chunk);
      ImageHolds(before, p, entries, chunk);
      TallyTells(p, entries, chunk);
    }
  }
}
