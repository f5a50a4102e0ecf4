/**
 Flattening a provider's file tree, internal/alldebrid/parse.go: the tree is walked in order into one
 shared list, with rules on every node, and no two files may end up with the same identity.
 */
module FileTree {
  import opened Wrappers
  import opened Text

  const MAX_FILES: nat := 8192
  const MAX_DEPTH: nat := 32
  const MAX_COMPONENT: nat := 1024

  datatype Node = Node(name: string, size: int, link: string, children: seq<Node>)

  datatype File = File(id: string, name: string, relativePath: string, size: int, link: string)

  // ---------------------------------------------------------------- paths

  /** The parts between slashes. */
  function Split(s: string): (parts: seq<string>)
    ensures parts != []
    decreases |s|
  {
    var i := Index(s, '/');
    if i == |s| then [s] else [s[..i]] + Split(s[i + 1..])
  }

  function JoinParts(parts: seq<string>): string {
    if parts == [] then ""
    else if |parts| == 1 then parts[0]
    else parts[0] + "/" + JoinParts(parts[1..])
  }

  /** The parts that path.Clean keeps, after those on the stack. */
  function Resolve(parts: seq<string>, rooted: bool, stack: seq<string>): seq<string> {
    if parts == [] then stack
    else
      var p, rest := parts[0], parts[1..];
      if p == "" || p == "." then Resolve(rest, rooted, stack)
      else if p != ".." then Resolve(rest, rooted, stack + [p])
      else if stack != [] && stack[|stack| - 1] != ".." then Resolve(rest, rooted, stack[..|stack| - 1])
      else if rooted then Resolve(rest, rooted, stack)
      else Resolve(rest, rooted, stack + [p])
  }

  /** path.Clean */
  function Clean(path: string): string {
    var rooted := path != "" && path[0] == '/';
    var body := JoinParts(Resolve(Split(path), rooted, []));
    if rooted then "/" + body else if body == "" then "." else body
  }

  /** path.Join of two elements. */
  function PathJoin(parent: string, name: string): string {
    if parent == "" && name == "" then ""
    else Clean(if parent == "" then name else parent + "/" + name)
  }

  predicate IsComponent(name: string) {
    name != "" && name != "." && name != ".." && '/' !in name
  }

  predicate IsPath(parts: seq<string>) {
    forall i :: 0 <= i < |parts| ==> IsComponent(parts[i])
  }

  lemma {:induction false} SplitOfJoin(parts: seq<string>)
    requires parts != [] && IsPath(parts)
    ensures Split(JoinParts(parts)) == parts
  {
    assert IsComponent(parts[0]);
    if |parts| == 1 {
      NoSlash(parts[0]);
    } else {
      var s, rest := JoinParts(parts), JoinParts(parts[1..]);
      assert s == parts[0] + ['/'] + rest;
      IndexOfSeparator(parts[0], '/', rest);
      SplitOfJoin(parts[1..]);
      assert s[..|parts[0]|] == parts[0] && s[|parts[0]| + 1..] == rest;
    }
  }

  lemma {:induction false} NoSlash(s: string)
    requires '/' !in s
    ensures Index(s, '/') == |s|
  {
    if s != "" {
      NoSlash(s[1..]);
    }
  }

  lemma {:induction false} NothingToResolve(parts: seq<string>, rooted: bool, stack: seq<string>)
    requires IsPath(parts)
    ensures Resolve(parts, rooted, stack) == stack + parts
  {
    if parts != [] {
      assert IsComponent(parts[0]);
      NothingToResolve(parts[1..], rooted, stack + [parts[0]]);
      assert stack + [parts[0]] + parts[1..] == stack + parts;
    }
  }

  lemma {:induction false} JoinOneMore(parts: seq<string>, name: string)
    requires parts != []
    ensures JoinParts(parts + [name]) == JoinParts(parts) + "/" + name
  {
    assert (parts + [name])[1..] == parts[1..] + [name];
    if |parts| > 1 {
      JoinOneMore(parts[1..], name);
    } else {
      assert JoinParts(parts[1..] + [name]) == name;
    }
  }

  /** Joining a component to a path of components only appends it. */
  lemma PathJoinAppends(parts: seq<string>, name: string)
    requires IsPath(parts + [name])
    ensures PathJoin(JoinParts(parts), name) == JoinParts(parts + [name])
    ensures parts != [] ==> JoinParts(parts) != ""
  {
    var all := parts + [name];
    var joined := JoinParts(all);
    assert IsComponent(all[0]) && all[|parts|] == name;
    if parts != [] {
      JoinOneMore(parts, name);
    } else {
      assert all == [name];
    }
    assert joined[0] == all[0][0];
    assert JoinParts(parts) != "" || parts == [] by {
      if parts != [] { assert parts[0] == all[0]; }
    }
    SplitOfJoin(all);
    NothingToResolve(all, false, []);
    assert [] + all == all;
  }

  /** Different components give different paths. */
  lemma PathsAreInjective(a: seq<string>, b: seq<string>)
    requires a != [] && b != [] && IsPath(a) && IsPath(b)
    ensures JoinParts(a) == JoinParts(b) <==> a == b
  {
    SplitOfJoin(a);
    SplitOfJoin(b);
  }

  // ---------------------------------------------------------------- the rules and the leaves

  /** strings.ContainsAny(name, "/\\") is the last of them. */
  predicate NameOK(raw: string) {
    var name := TrimSpace(raw);
    name != "" && ByteLen(name) <= MAX_COMPONENT && name != "." && name != ".." && '/' !in name && '\\' !in name
  }

  predicate Accepts(n: Node, depth: nat)
    decreases n, 0
  {
    && NameOK(n.name)
    && (if n.children != [] then n.link == "" && n.size == 0 && Accepted(n.children, depth + 1)
        else n.link != "" && n.size >= 0)
  }

  /** Every node obeys the rules on names, leaves and directories, and none lies too deep. */
  predicate Accepted(nodes: seq<Node>, depth: nat)
    decreases nodes, 1
  {
    depth <= MAX_DEPTH && forall i :: 0 <= i < |nodes| ==> Accepts(nodes[i], depth)
  }

  datatype Leaf = Leaf(path: seq<string>, size: int, link: string)

  function LeavesOf(n: Node, at: seq<string>): seq<Leaf>
    decreases n, 0
  {
    var here := at + [TrimSpace(n.name)];
    if n.children != [] then Leaves(n.children, here) else [Leaf(here, n.size, n.link)]
  }

  /** The leaves in pre-order, with the names on the way to them. */
  function Leaves(nodes: seq<Node>, at: seq<string>): seq<Leaf>
    decreases nodes, 1
  {
    if nodes == [] then [] else LeavesOf(nodes[0], at) + Leaves(nodes[1..], at)
  }

  function FormatInt(n: int): string {
    if n < 0 then "-" + FormatNat(-n) else FormatNat(n)
  }

  /** What is hashed into a file's identity. */
  function IdentityText(rel: string, size: int): string {
    rel + "\0" + FormatInt(size)
  }

  function FileOf(leaf: Leaf, digest: string -> string): File {
    var rel, name := JoinParts(leaf.path), if leaf.path == [] then "" else leaf.path[|leaf.path| - 1];
    File(digest(IdentityText(rel, leaf.size)), name, rel, leaf.size, leaf.link)
  }

  function FilesOf(leaves: seq<Leaf>, digest: string -> string): seq<File> {
    seq(|leaves|, i requires 0 <= i < |leaves| => FileOf(leaves[i], digest))
  }

  lemma FilesOfBoth(a: seq<Leaf>, b: seq<Leaf>, digest: string -> string)
    ensures FilesOf(a + b, digest) == FilesOf(a, digest) + FilesOf(b, digest)
  {
    var all, both := FilesOf(a + b, digest), FilesOf(a, digest) + FilesOf(b, digest);
    forall i | 0 <= i < |a| + |b|
      ensures all[i] == both[i]
    {
      if i < |a| {
        assert (a + b)[i] == a[i];
      } else {
        assert (a + b)[i] == b[i - |a|];
      }
    }
  }

  lemma {:induction false} LeavesOfBoth(a: seq<Node>, b: seq<Node>, at: seq<string>)
    ensures Leaves(a + b, at) == Leaves(a, at) + Leaves(b, at)
  {
    if a == [] {
      assert a + b == b;
    } else {
      assert (a + b)[0] == a[0] && (a + b)[1..] == a[1..] + b;
      LeavesOfBoth(a[1..], b, at);
    }
  }

  lemma LeavesUpTo(nodes: seq<Node>, i: nat, at: seq<string>)
    requires i < |nodes|
    ensures Leaves(nodes[..i + 1], at) == Leaves(nodes[..i], at) + LeavesOf(nodes[i], at)
    ensures |Leaves(nodes[..i + 1], at)| <= |Leaves(nodes, at)|
  {
    assert nodes[..i + 1] == nodes[..i] + [nodes[i]];
    LeavesOfBoth(nodes[..i], [nodes[i]], at);
    assert Leaves([nodes[i]], at) == LeavesOf(nodes[i], at);
    assert nodes == nodes[..i + 1] + nodes[i + 1..];
    LeavesOfBoth(nodes[..i + 1], nodes[i + 1..], at);
  }

  /** The shared list the walk appends to. */
  class Output {
    var files: seq<File>

    constructor ()
      ensures files == []
    {
      files := [];
    }

    method Append(file: File)
      modifies this
      ensures files == old(files) + [file]
    {
      files := files + [file];
    }
  }

  lemma NameIsComponent(n: Node, depth: nat, at: seq<string>)
    requires NameOK(n.name) && IsPath(at)
    ensures IsPath(at + [TrimSpace(n.name)])
    ensures PathJoin(JoinParts(at), TrimSpace(n.name)) == JoinParts(at + [TrimSpace(n.name)])
  {
    PathJoinAppends(at, TrimSpace(n.name));
  }

  /** flattenFiles: it succeeds exactly if the tree is accepted and its files still fit. */
  method FlattenFiles(
      nodes: seq<Node>, parent: string, depth: nat, out: Output, digest: string -> string,
      ghost at: seq<string>)
    returns (ok: bool)
    requires IsPath(at) && parent == JoinParts(at) && |out.files| <= MAX_FILES
    modifies out
    ensures ok <==> Accepted(nodes, depth) && |old(out.files)| + |Leaves(nodes, at)| <= MAX_FILES
    ensures ok ==> out.files == old(out.files) + FilesOf(Leaves(nodes, at), digest)
    ensures |out.files| <= MAX_FILES
    decreases nodes, 1
  {
    if depth > MAX_DEPTH {
      return false;
    }
    ghost var before := out.files;
    for i := 0 to |nodes|
      invariant |out.files| <= MAX_FILES && Flattened(out.files, before, nodes[..i], depth, at, digest)
    {
      OneNodeMore(nodes, i, depth, at, |before|);
      ghost var files := out.files;
      ok := FlattenNode(nodes[i], parent, depth, out, digest, at);
      if !ok {
        return;
      }
      FlattenedStep(files, out.files, before, nodes, i, depth, at, digest);
    }
    assert nodes[..|nodes|] == nodes;
    ok := true;
  }

  ghost predicate Flattened(
      files: seq<File>, before: seq<File>, part: seq<Node>, depth: nat, at: seq<string>,
      digest: string -> string)
  {
    Accepted(part, depth) && files == before + FilesOf(Leaves(part, at), digest)
  }

  lemma FlattenedStep(
      files: seq<File>, longer: seq<File>, before: seq<File>, nodes: seq<Node>, i: nat, depth: nat,
      at: seq<string>, digest: string -> string)
    requires i < |nodes| && Flattened(files, before, nodes[..i], depth, at, digest)
    requires Accepts(nodes[i], depth) && longer == files + FilesOf(LeavesOf(nodes[i], at), digest)
    ensures Flattened(longer, before, nodes[..i + 1], depth, at, digest)
  {
    OneNodeMore(nodes, i, depth, at, 0);
    var a, b := Leaves(nodes[..i], at), LeavesOf(nodes[i], at);
    FilesOfBoth(a, b, digest);
    Associative(before, FilesOf(a, digest), FilesOf(b, digest));
  }

  lemma Associative<T>(a: seq<T>, b: seq<T>, c: seq<T>)
    ensures (a + b) + c == a + (b + c)
  {
  }

  lemma OneNodeMore(nodes: seq<Node>, i: nat, depth: nat, at: seq<string>, before: nat)
    requires i < |nodes| && Accepted(nodes[..i], depth)
    ensures Leaves(nodes[..i + 1], at) == Leaves(nodes[..i], at) + LeavesOf(nodes[i], at)
    ensures Accepted(nodes[..i + 1], depth) <==> Accepts(nodes[i], depth)
    ensures Accepted(nodes, depth) && before + |Leaves(nodes, at)| <= MAX_FILES ==>
              Accepts(nodes[i], depth) && before + |Leaves(nodes[..i], at)| + |LeavesOf(nodes[i], at)| <= MAX_FILES
  {
    LeavesUpTo(nodes, i, at);
  }

  /** The body of its loop. */
  method FlattenNode(n: Node, parent: string, depth: nat, out: Output, digest: string -> string, ghost at: seq<string>)
    returns (ok: bool)
    requires IsPath(at) && parent == JoinParts(at) && |out.files| <= MAX_FILES
    modifies out
    ensures ok <==> Accepts(n, depth) && |old(out.files)| + |LeavesOf(n, at)| <= MAX_FILES
    ensures ok ==> out.files == old(out.files) + FilesOf(LeavesOf(n, at), digest)
    ensures |out.files| <= MAX_FILES
    decreases n, 0
  {
    var name := TrimSpace(n.name);
    if !NameOK(n.name) {
      return false;
    }
    NameIsComponent(n, depth, at);
    var rel := PathJoin(parent, name);
    if n.children != [] {
      if n.link != "" || n.size != 0 {
        return false;
      }
      ok := FlattenFiles(n.children, rel, depth + 1, out, digest, at + [name]);
      return;
    }
    if n.link == "" || n.size < 0 || |out.files| >= MAX_FILES {
      return false;
    }
    out.Append(File(digest(IdentityText(rel, n.size)), name, rel, n.size, n.link));
    ok := true;
  }

  // ---------------------------------------------------------------- identities

  ghost predicate Injective(digest: string -> string) {
    forall a, b :: digest(a) == digest(b) ==> a == b
  }

  lemma SeparatorIsNotLater(a: string, m: string, b: string, n: string)
    requires AllDigits(m) && a + "\0" + m == b + "\0" + n
    ensures |b| <= |a|
  {
    assert forall k :: |a| < k <= |a| + |m| ==> (a + "\0" + m)[k] == m[k - |a| - 1];
    assert (b + "\0" + n)[|b|] == '\0';
  }

  /** The last zero byte separates the size from the path, whatever the path holds. */
  lemma SeparatorIsUnambiguous(a: string, m: string, b: string, n: string)
    requires AllDigits(m) && AllDigits(n) && a + "\0" + m == b + "\0" + n
    ensures a == b && m == n
  {
    SeparatorIsNotLater(a, m, b, n);
    SeparatorIsNotLater(b, n, a, m);
    var s := a + "\0" + m;
    assert s[..|a|] == a && s[..|b|] == b && s[|a| + 1..] == m && s[|b| + 1..] == n;
  }

  /** Two files have the same identity exactly if they have the same path and size. */
  lemma SameIdentity(a: Leaf, b: Leaf, digest: string -> string)
    requires Injective(digest)
    requires a.path != [] && IsPath(a.path) && a.size >= 0 && b.path != [] && IsPath(b.path) && b.size >= 0
    ensures FileOf(a, digest).id == FileOf(b, digest).id <==> a.path == b.path && a.size == b.size
  {
    if FileOf(a, digest).id == FileOf(b, digest).id {
      SeparatorIsUnambiguous(JoinParts(a.path), FormatNat(a.size), JoinParts(b.path), FormatNat(b.size));
      PathsAreInjective(a.path, b.path);
      FormatIsInjective(a.size, b.size);
    }
  }

  ghost predicate Sound(leaves: seq<Leaf>) {
    forall i :: 0 <= i < |leaves| ==> leaves[i].path != [] && IsPath(leaves[i].path) && leaves[i].size >= 0
  }

  lemma {:induction false} NodeLeavesAreSound(n: Node, depth: nat, at: seq<string>)
    requires Accepts(n, depth) && IsPath(at)
    ensures Sound(LeavesOf(n, at))
    decreases n, 0
  {
    NameIsComponent(n, depth, at);
    if n.children != [] {
      LeavesAreSound(n.children, depth + 1, at + [TrimSpace(n.name)]);
    }
  }

  lemma {:induction false} LeavesAreSound(nodes: seq<Node>, depth: nat, at: seq<string>)
    requires Accepted(nodes, depth) && IsPath(at)
    ensures Sound(Leaves(nodes, at))
    decreases nodes, 1
  {
    if nodes != [] {
      NodeLeavesAreSound(nodes[0], depth, at);
      LeavesAreSound(nodes[1..], depth, at);
    }
  }

  datatype Problem = BadTree | NoFiles | Duplicate

  /** Two files of the tree with one path and one size. */
  ghost predicate Ambiguous(leaves: seq<Leaf>) {
    exists i, j :: 0 <= i < j < |leaves| && leaves[i].path == leaves[j].path && leaves[i].size == leaves[j].size
  }

  ghost predicate Fits(nodes: seq<Node>) {
    Accepted(nodes, 0) && |Leaves(nodes, [])| <= 8192
  }

  ghost predicate DistinctIDs(files: seq<File>) {
    forall j, k :: 0 <= j < k < |files| ==> files[j].id != files[k].id
  }

  /** The uniqueness check of parseFiles. */
  method CheckUnique(files: seq<File>) returns (distinct: bool)
    ensures distinct <==> DistinctIDs(files)
  {
    var seen: set<string> := {};
    for i := 0 to |files|
      invariant forall id :: id in seen ==> exists k :: 0 <= k < i && files[k].id == id
      invariant forall k :: 0 <= k < i ==> files[k].id in seen
      invariant DistinctIDs(files[..i])
    {
      if files[i].id in seen {
        return false;
      }
      assert files[..i + 1] == files[..i] + [files[i]];
      seen := seen + {files[i].id};
    }
    assert files[..|files|] == files;
    distinct := true;
  }

  lemma PairOfFiles(leaves: seq<Leaf>, digest: string -> string, i: nat, j: nat)
    requires Injective(digest) && Sound(leaves) && i < j < |leaves|
    ensures FilesOf(leaves, digest)[i].id == FilesOf(leaves, digest)[j].id <==>
            leaves[i].path == leaves[j].path && leaves[i].size == leaves[j].size
  {
    SameIdentity(leaves[i], leaves[j], digest);
  }

  lemma DuplicatesAreAmbiguous(leaves: seq<Leaf>, digest: string -> string)
    requires Injective(digest) && Sound(leaves)
    ensures DistinctIDs(FilesOf(leaves, digest)) <==> !Ambiguous(leaves)
  {
    var files := FilesOf(leaves, digest);
    forall i, j | 0 <= i < j < |leaves|
      ensures files[i].id == files[j].id <==> leaves[i].path == leaves[j].path && leaves[i].size == leaves[j].size
    {
      PairOfFiles(leaves, digest, i, j);
    }
  }

  /** The end of parseFiles: no files at all, or two that cannot be told apart. */
  method CheckFiles(files: seq<File>, ghost leaves: seq<Leaf>, digest: string -> string)
    returns (r: Result<seq<File>, Problem>)
    requires Injective(digest) && Sound(leaves) && files == FilesOf(leaves, digest)
    ensures r == Err(NoFiles) <==> leaves == []
    ensures r == Err(Duplicate) <==> Ambiguous(leaves)
    ensures r.Ok? ==> r.value == files
    ensures r != Err(BadTree)
  {
    if files == [] {
      assert |leaves| == 0;
      return Err(NoFiles);
    }
    DuplicatesAreAmbiguous(leaves, digest);
    var distinct := CheckUnique(files);
    r := if distinct then Ok(files) else Err(Duplicate);
  }

  /** parseFiles, from the tree of the one magnet in the response. */
  method ParseFiles(nodes: seq<Node>, digest: string -> string) returns (r: Result<seq<File>, Problem>)
    requires Injective(digest)
    ensures r == Err(BadTree) <==> !Fits(nodes)
    ensures r == Err(NoFiles) <==> nodes == []
    ensures r == Err(Duplicate) <==> Fits(nodes) && Ambiguous(Leaves(nodes, []))
    ensures r.Ok? ==> r.value == FilesOf(Leaves(nodes, []), digest)
  {
    var out := new Output();
    var ok := FlattenFiles(nodes, "", 0, out, digest, []);
    NoLeavesMeansNoNodes(nodes, []);
    if !ok {
      return Err(BadTree);
    }
    LeavesAreSound(nodes, 0, []);
    assert out.files == FilesOf(Leaves(nodes, []), digest);
    r := CheckFiles(out.files, Leaves(nodes, []), digest);
  }

  lemma {:induction false} NodeHasLeaves(n: Node, at: seq<string>)
    ensures LeavesOf(n, at) != []
    decreases n, 0
  {
    if n.children != [] {
      NoLeavesMeansNoNodes(n.children, at + [TrimSpace(n.name)]);
    }
  }

  lemma {:induction false} NoLeavesMeansNoNodes(nodes: seq<Node>, at: seq<string>)
    ensures Leaves(nodes, at) == [] <==> nodes == []
    decreases nodes, 1
  {
    if nodes != [] {
      NodeHasLeaves(nodes[0], at);
    }
  }
}
