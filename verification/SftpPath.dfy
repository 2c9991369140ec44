/** resolve_sftp_path and to_client_path of the SFTP server, over a tree without symbolic links:
    there, weakly_canonical is the lexical removal of ".", ".." and repeated slashes. */
module SftpPath {
  import opened Basics

  // ---- text ----

  function Split(s: string): (r: seq<string>)
    ensures r != []
  {
    if s == "" then [""]
    else
      var rest := Split(s[1..]);
      if s[0] == '/' then [""] + rest else [[s[0]] + rest[0]] + rest[1..]
  }

  function Join(components: seq<string>): string {
    if components == [] then ""
    else if |components| == 1 then components[0]
    else components[0] + "/" + Join(components[1..])
  }

  predicate NoSlash(components: seq<string>) {
    forall i :: 0 <= i < |components| ==> '/' !in components[i]
  }

  lemma {:induction false} SplitHasNoSlash(s: string)
    ensures NoSlash(Split(s))
  {
    if s != "" {
      SplitHasNoSlash(s[1..]);
      assert s[0] != '/' ==> '/' !in [s[0]] + Split(s[1..])[0];
    }
  }

  lemma {:induction false} SplitFirst(c: string, rest: string)
    requires '/' !in c
    ensures Split(c + "/" + rest) == [c] + Split(rest)
    ensures Split(c) == [c]
  {
    var s := c + "/" + rest;
    if c == "" {
      assert s[0] == '/' && s[1..] == rest;
    } else {
      SplitFirst(c[1..], rest);
      assert s[1..] == c[1..] + "/" + rest;
      assert [c[0]] + c[1..] == c;
    }
  }

  lemma {:induction false} SplitJoin(components: seq<string>)
    requires components != [] && NoSlash(components)
    ensures Split(Join(components)) == components
  {
    SplitFirst(components[0], Join(components[1..]));
    if |components| > 1 {
      SplitJoin(components[1..]);
    }
  }

  /** Splitting takes out the slashes and nothing else. */
  lemma {:induction false} JoinSplit(s: string)
    ensures Join(Split(s)) == s
  {
    if s != "" {
      JoinSplit(s[1..]);
      var rest := Split(s[1..]);
      if s[0] == '/' {
        assert Join([""] + rest) == "" + "/" + Join(([""] + rest)[1..]);
        assert ([""] + rest)[1..] == rest;
      } else {
        var parts := [[s[0]] + rest[0]] + rest[1..];
        assert parts[1..] == rest[1..] && parts[0] == [s[0]] + rest[0];
        assert |rest| > 1 ==> Join(rest) == rest[0] + "/" + Join(rest[1..]);
        assert |rest| > 1 ==> Join(parts) == ([s[0]] + rest[0]) + "/" + Join(parts[1..]);
      }
    }
  }

  // ---- normal form ----

  predicate IsName(c: string) {
    c != "" && c != "." && c != ".." && '/' !in c
  }

  predicate IsNormal(p: Path) {
    forall i :: 0 <= i < |p| ==> IsName(p[i])
  }

  /** One component applied to a normal path; ".." at the top stays there. */
  function Enter(p: Path, c: string): Path {
    if c == "" || c == "." then p
    else if c == ".." then (if p == [] then [] else p[..|p| - 1])
    else p + [c]
  }

  function Walk(p: Path, components: seq<string>): Path
    decreases |components|
  {
    if components == [] then p else Walk(Enter(p, components[0]), components[1..])
  }

  /** weakly_canonical of an absolute path. */
  function Canonical(components: seq<string>): Path {
    Walk([], components)
  }

  lemma {:induction false} WalkIsNormal(p: Path, components: seq<string>)
    requires IsNormal(p) && NoSlash(components)
    ensures IsNormal(Walk(p, components))
    decreases |components|
  {
    if components != [] {
      WalkIsNormal(Enter(p, components[0]), components[1..]);
    }
  }

  /** Normal components only extend the path. */
  lemma {:induction false} WalkNames(p: Path, names: seq<string>)
    requires IsNormal(names)
    ensures Walk(p, names) == p + names
    decreases |names|
  {
    if names == [] {
      assert p + names == p;
    } else {
      WalkNames(p + [names[0]], names[1..]);
      assert p + [names[0]] + names[1..] == p + names;
    }
  }

  lemma {:induction false} WalkAppend(p: Path, a: seq<string>, b: seq<string>)
    ensures Walk(p, a + b) == Walk(Walk(p, a), b)
    decreases |a|
  {
    if a == [] {
      assert a + b == b;
    } else {
      assert (a + b)[1..] == a[1..] + b;
      WalkAppend(Enter(p, a[0]), a[1..], b);
    }
  }

  lemma CanonicalIsIdempotent(components: seq<string>)
    requires NoSlash(components)
    ensures Canonical(Canonical(components)) == Canonical(components)
  {
    WalkIsNormal([], components);
    WalkNames([], Canonical(components));
    assert [] + Canonical(components) == Canonical(components);
  }

  // ---- the server's two functions ----

  function StripSlashes(s: string): string {
    if s != "" && s[0] == '/' then StripSlashes(s[1..]) else s
  }

  /** The client's path, as components below the root. */
  function Relative(clientPath: string): seq<string> {
    var clean := StripSlashes(clientPath);
    if clean == "" then ["."] else Split(clean)
  }

  function Resolve(root: seq<string>, clientPath: string): Result<Path> {
    var canonRoot := Canonical(root);
    var canon := Canonical(root + Relative(clientPath));
    if canonRoot <= canon then Ok(canon) else Err(1)
  }

  function ToClientPath(root: seq<string>, canon: Path): string
    requires Canonical(root) <= canon
  {
    var rel := canon[|Canonical(root)|..];
    if rel == [] then "/" else "/" + Join(rel)
  }

  lemma RelativeHasNoSlash(clientPath: string)
    ensures NoSlash(Relative(clientPath))
  {
    SplitHasNoSlash(StripSlashes(clientPath));
  }

  /** Whatever the client sends, an accepted path is in normal form and lies under the root. */
  lemma ResolveStaysUnderRoot(root: seq<string>, clientPath: string)
    requires NoSlash(root)
    ensures var r := Resolve(root, clientPath);
      r.Ok? ==> Canonical(root) <= r.value && IsNormal(r.value) && Canonical(r.value) == r.value
  {
    RelativeHasNoSlash(clientPath);
    var all := root + Relative(clientPath);
    assert NoSlash(all);
    WalkIsNormal([], all);
    CanonicalIsIdempotent(all);
  }

  lemma StripOneSlash(s: string, rest: string)
    requires s == "/" + rest && rest != "" && rest[0] != '/'
    ensures StripSlashes(s) == rest
  {
    assert s[0] == '/' && s[1..] == rest;
    assert StripSlashes(rest) == rest;
  }

  /** A client path names its target through to_client_path: every normal path under the root is
      what its own client name resolves to. */
  lemma ResolveInvertsToClientPath(root: seq<string>, canon: Path)
    requires NoSlash(root) && Canonical(root) <= canon && IsNormal(canon)
    ensures Resolve(root, ToClientPath(root, canon)) == Ok(canon)
  {
    var canonRoot := Canonical(root);
    var rel := canon[|canonRoot|..];
    var client := ToClientPath(root, canon);
    assert client[0] == '/' && client[1..] == Join(rel);
    if rel == [] {
      assert client[1..] == "" && StripSlashes(client) == "";
      assert Relative(client) == ["."];
      WalkAppend([], root, ["."]);
      assert ["."][1..] == [];
      assert Walk(canonRoot, ["."]) == Walk(canonRoot, []) == canonRoot;
    } else {
      SplitJoin(rel);
      assert rel[0] != "" && rel[0][0] != '/' && Join(rel) != "" && Join(rel)[0] == rel[0][0];
      StripOneSlash(client, Join(rel));
      assert Relative(client) == rel;
      WalkAppend([], root, rel);
      WalkNames(canonRoot, rel);
    }
    assert canonRoot + rel == canon;
    assert Canonical(root + Relative(client)) == canon;
  }

  /** The name begins with a slash; the root is "/", and below it the components follow, one slash before each. */
  lemma ClientPathReads(root: seq<string>, canon: Path)
    requires Canonical(root) <= canon && IsNormal(canon)
    ensures var name := ToClientPath(root, canon); var rel := canon[|Canonical(root)|..];
      if rel == [] then name == "/" else name != "/" && name[0] == '/' && Split(name) == [""] + rel
  {
    var rel := canon[|Canonical(root)|..];
    if rel != [] {
      SplitJoin(rel);
      SplitFirst("", Join(rel));
      assert "" + "/" + Join(rel) == "/" + Join(rel);
      SplitFirst("", "");
      assert "" + "/" + "" == "/";
      assert rel[0] != "" && Split(Join(rel)) == rel;
      assert Split("/") == [""] + [""];
    }
  }

  /** Different paths have different names. */
  lemma ClientPathIsInjective(root: seq<string>, one: Path, other: Path)
    requires NoSlash(root) && Canonical(root) <= one && IsNormal(one) && Canonical(root) <= other && IsNormal(other)
    requires ToClientPath(root, one) == ToClientPath(root, other)
    ensures one == other
  {
    ResolveInvertsToClientPath(root, one);
    ResolveInvertsToClientPath(root, other);
  }

  /** REALPATH is a fixed point: the name it answers resolves to the same path, and asking again
      gives the same name. */
  lemma RealpathIsFixedPoint(root: seq<string>, clientPath: string)
    requires NoSlash(root)
    ensures var r := Resolve(root, clientPath);
      r.Ok? ==> Resolve(root, ToClientPath(root, r.value)) == r
  {
    ResolveStaysUnderRoot(root, clientPath);
    var r := Resolve(root, clientPath);
    if r.Ok? {
      ResolveInvertsToClientPath(root, r.value);
    }
  }

  /** No ".." of rel climbs above the directory depth levels below where rel starts. */
  predicate NeverClimbs(rel: seq<string>, depth: nat) {
    rel == [] ||
    (if rel[0] == "" || rel[0] == "." then NeverClimbs(rel[1..], depth)
     else if rel[0] == ".." then depth > 0 && NeverClimbs(rel[1..], depth - 1)
     else NeverClimbs(rel[1..], depth + 1))
  }

  lemma {:induction false} WalkBelow(base: Path, p: Path, rel: seq<string>)
    requires NeverClimbs(rel, |p|)
    ensures Walk(base + p, rel) == base + Walk(p, rel)
    decreases |rel|
  {
    if rel != [] {
      assert Enter(base + p, rel[0]) == base + Enter(p, rel[0]);
      WalkBelow(base, Enter(p, rel[0]), rel[1..]);
    }
  }

  /** A path that never climbs above the root is accepted, and means the same under every root. */
  lemma ResolveAcceptsInside(root: seq<string>, clientPath: string)
    requires NeverClimbs(Relative(clientPath), 0)
    ensures Resolve(root, clientPath) == Ok(Canonical(root) + Canonical(Relative(clientPath)))
  {
    WalkAppend([], root, Relative(clientPath));
    WalkBelow(Canonical(root), [], Relative(clientPath));
    assert Canonical(root) + [] == Canonical(root);
  }

  /** The converse fails: leaving the root and coming back through its own name is accepted. */
  lemma ResolveAcceptsReentry(root: seq<string>)
    requires NoSlash(root) && Canonical(root) != []
    ensures var canonRoot := Canonical(root);
      var clientPath := "../" + canonRoot[|canonRoot| - 1];
      !NeverClimbs(Relative(clientPath), 0) && Resolve(root, clientPath) == Ok(canonRoot)
  {
    WalkIsNormal([], root);
    var canonRoot := Canonical(root);
    var name := canonRoot[|canonRoot| - 1];
    var clientPath := "../" + name;
    assert clientPath == ".." + "/" + name && clientPath[0] == '.';
    SplitFirst("..", name);
    SplitFirst(name, "");
    assert Relative(clientPath) == [".."] + [name];
    WalkAppend([], root, [".."] + [name]);
    WalkUpAndBack(canonRoot);
  }

  lemma WalkOne(p: Path, c: string)
    ensures Walk(p, [c]) == Enter(p, c)
  {
    assert [c][1..] == [];
  }

  lemma WalkUpAndBack(p: Path)
    requires IsNormal(p) && p != []
    ensures Walk(p, [".."] + [p[|p| - 1]]) == p
  {
    var up, name := p[..|p| - 1], p[|p| - 1];
    WalkOne(p, "..");
    WalkOne(up, name);
    WalkAppend(p, [".."], [name]);
    assert up + [name] == p;
  }
}
