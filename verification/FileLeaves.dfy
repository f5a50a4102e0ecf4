/**
 The rules and the leaves of a file tree, told by the addresses of its nodes: which trees are accepted,
 and that flattening takes each leaf once, in the order of the walk, with the names on the way to it.
 */
module FileLeaves {
  import opened FileTree
  import opened Text
  import opened Wrappers

  /** The node at an address: at every level, which child to take. */
  function At(nodes: seq<Node>, address: seq<nat>): Option<Node>
    decreases |address|
  {
    if address == [] || address[0] >= |nodes| then None
    else if |address| == 1 then Some(nodes[address[0]])
    else At(nodes[address[0]].children, address[1..])
  }

  // ---------------------------------------------------------------- the rules

  /** The rules on a node, spelled out: its name, and whether it is a file or a directory. */
  predicate Obeys(n: Node) {
    var name := TrimSpace(n.name);
    && name != "" && ByteLen(name) <= 1024 && name != "." && name != ".." && '/' !in name && '\\' !in name
    && if n.children == [] then n.link != "" && n.size >= 0 else n.link == "" && n.size == 0
  }

  ghost predicate AllObey(nodes: seq<Node>, depth: nat) {
    forall address :: At(nodes, address).Some? ==> Obeys(At(nodes, address).value) && depth + |address| <= 33
  }

  /** A tree is accepted if and only if every node in it obeys the rules and lies at most 32 levels down. */
  lemma {:induction false} AcceptedMeansEveryNode(nodes: seq<Node>, depth: nat)
    requires depth <= 32
    ensures Accepted(nodes, depth) <==> AllObey(nodes, depth)
  {
    if Accepted(nodes, depth) {
      forall address | At(nodes, address).Some?
        ensures Obeys(At(nodes, address).value) && depth + |address| <= 33
      {
        AcceptedObeys(nodes, depth, address);
      }
    }
    if AllObey(nodes, depth) {
      ObeyingIsAccepted(nodes, depth);
    }
  }

  lemma {:induction false} AcceptedObeys(nodes: seq<Node>, depth: nat, address: seq<nat>)
    requires Accepted(nodes, depth) && At(nodes, address).Some?
    ensures Obeys(At(nodes, address).value) && depth + |address| <= 33
    decreases |address|
  {
    var n := nodes[address[0]];
    assert Accepts(n, depth);
    if |address| > 1 {
      AcceptedObeys(n.children, depth + 1, address[1..]);
    }
  }

  lemma {:induction false} ObeyingIsAccepted(nodes: seq<Node>, depth: nat)
    requires depth <= 32 && AllObey(nodes, depth)
    ensures Accepted(nodes, depth)
    decreases nodes
  {
    forall i | 0 <= i < |nodes|
      ensures Accepts(nodes[i], depth)
    {
      var n := nodes[i];
      assert At(nodes, [i]) == Some(n);
      if n.children != [] {
        ChildrenObey(nodes, depth, i);
        ObeyingIsAccepted(n.children, depth + 1);
      }
    }
  }

  lemma ChildrenObey(nodes: seq<Node>, depth: nat, i: nat)
    requires AllObey(nodes, depth) && i < |nodes| && nodes[i].children != []
    ensures depth + 1 <= 32 && AllObey(nodes[i].children, depth + 1)
  {
    var children := nodes[i].children;
    forall address | At(children, address).Some?
      ensures Obeys(At(children, address).value) && depth + 1 + |address| <= 33
    {
      assert ([i] + address)[1..] == address && At(nodes, [i] + address) == At(children, address);
    }
    assert At(children, [0]).Some?;
  }

  // ---------------------------------------------------------------- the leaves

  /** The names on the way to a node. */
  function PathTo(nodes: seq<Node>, address: seq<nat>): (path: seq<string>)
    requires At(nodes, address).Some?
    ensures |path| == |address|
    decreases |address|
  {
    var n := nodes[address[0]];
    [TrimSpace(n.name)] + if |address| == 1 then [] else PathTo(n.children, address[1..])
  }

  predicate HasLeaf(nodes: seq<Node>, address: seq<nat>) {
    At(nodes, address).Some? && At(nodes, address).value.children == []
  }

  /** The leaf is the one at this address. */
  predicate IsLeafAt(nodes: seq<Node>, address: seq<nat>, at: seq<string>, leaf: Leaf) {
    && HasLeaf(nodes, address) && leaf.path == at + PathTo(nodes, address)
    && leaf.size == At(nodes, address).value.size && leaf.link == At(nodes, address).value.link
  }

  /** The walk comes to the first address before it comes to the second. */
  predicate Earlier(a: seq<nat>, b: seq<nat>)
    decreases |a|
  {
    a != [] && b != [] && (a[0] < b[0] || (a[0] == b[0] && Earlier(a[1..], b[1..])))
  }

  ghost predicate InOrder(addresses: seq<seq<nat>>) {
    forall k, m :: 0 <= k < m < |addresses| ==> Earlier(addresses[k], addresses[m])
  }

  /** Leaf by leaf, the one at that address. */
  predicate AtTheirAddresses(addresses: seq<seq<nat>>, nodes: seq<Node>, at: seq<string>, leaves: seq<Leaf>) {
    |addresses| == |leaves| && forall i :: 0 <= i < |leaves| ==> IsLeafAt(nodes, addresses[i], at, leaves[i])
  }

  /** These are the leaves at addresses that start at the child `first` or later: all, in order, each once. */
  ghost predicate Enumerates(
      addresses: seq<seq<nat>>, nodes: seq<Node>, first: nat, at: seq<string>, leaves: seq<Leaf>)
  {
    && AtTheirAddresses(addresses, nodes, at, leaves) && InOrder(addresses)
    && forall a :: a in addresses <==> HasLeaf(nodes, a) && a[0] >= first
  }

  /** These are the leaves of the child `i` alone. */
  ghost predicate EnumeratesChild(
      addresses: seq<seq<nat>>, nodes: seq<Node>, i: nat, at: seq<string>, leaves: seq<Leaf>)
  {
    && AtTheirAddresses(addresses, nodes, at, leaves) && InOrder(addresses)
    && forall a :: a in addresses <==> HasLeaf(nodes, a) && a[0] == i
  }

  function Under(i: nat, addresses: seq<seq<nat>>): (r: seq<seq<nat>>)
    ensures |r| == |addresses| && forall k :: 0 <= k < |r| ==> r[k] == [i] + addresses[k]
  {
    seq(|addresses|, k requires 0 <= k < |addresses| => [i] + addresses[k])
  }

  lemma StepDown(nodes: seq<Node>, i: nat, address: seq<nat>)
    requires i < |nodes| && address != []
    ensures At(nodes, [i] + address) == At(nodes[i].children, address)
    ensures At(nodes, [i] + address).Some? ==>
              PathTo(nodes, [i] + address) == [TrimSpace(nodes[i].name)] + PathTo(nodes[i].children, address)
  {
    assert ([i] + address)[1..] == address;
  }

  lemma LeavesBelow(nodes: seq<Node>, i: nat, at: seq<string>, addresses: seq<seq<nat>>, leaves: seq<Leaf>)
    requires i < |nodes|
    requires AtTheirAddresses(addresses, nodes[i].children, at + [TrimSpace(nodes[i].name)], leaves)
    ensures AtTheirAddresses(Under(i, addresses), nodes, at, leaves)
  {
    var children, under, here := nodes[i].children, Under(i, addresses), at + [TrimSpace(nodes[i].name)];
    forall k | 0 <= k < |leaves|
      ensures IsLeafAt(nodes, under[k], at, leaves[k])
    {
      assert IsLeafAt(children, addresses[k], here, leaves[k]);
      StepDown(nodes, i, addresses[k]);
      assert here + PathTo(children, addresses[k]) == at + PathTo(nodes, under[k]);
    }
  }

  lemma OrderBelow(i: nat, addresses: seq<seq<nat>>)
    requires InOrder(addresses)
    ensures InOrder(Under(i, addresses))
  {
    var under := Under(i, addresses);
    forall k, m | 0 <= k < m < |under|
      ensures Earlier(under[k], under[m])
    {
      assert under[k][1..] == addresses[k] && under[m][1..] == addresses[m];
    }
  }

  lemma AddressBelow(nodes: seq<Node>, i: nat, a: seq<nat>)
    requires i < |nodes| && nodes[i].children != []
    ensures HasLeaf(nodes, a) && a[0] == i <==> a != [] && a[0] == i && HasLeaf(nodes[i].children, a[1..])
  {
    if a != [] && a[0] == i && |a| > 1 {
      assert a == [i] + a[1..];
      StepDown(nodes, i, a[1..]);
    }
  }

  lemma InUnder(i: nat, addresses: seq<seq<nat>>, a: seq<nat>)
    ensures a in Under(i, addresses) <==> a != [] && a[0] == i && a[1..] in addresses
  {
    var under := Under(i, addresses);
    if a != [] && a[0] == i && a[1..] in addresses {
      var k :| 0 <= k < |addresses| && addresses[k] == a[1..];
      assert under[k] == a;
    }
    if a in under {
      var k :| 0 <= k < |under| && under[k] == a;
      assert a[1..] == addresses[k];
    }
  }

  /** The leaves below one child, seen from its parent. */
  lemma DirectoryLeaves(nodes: seq<Node>, i: nat, at: seq<string>, addresses: seq<seq<nat>>, leaves: seq<Leaf>)
    requires i < |nodes| && nodes[i].children != []
    requires Enumerates(addresses, nodes[i].children, 0, at + [TrimSpace(nodes[i].name)], leaves)
    ensures EnumeratesChild(Under(i, addresses), nodes, i, at, leaves)
  {
    LeavesBelow(nodes, i, at, addresses, leaves);
    OrderBelow(i, addresses);
    forall a
      ensures a in Under(i, addresses) <==> HasLeaf(nodes, a) && a[0] == i
    {
      InUnder(i, addresses, a);
      AddressBelow(nodes, i, a);
    }
  }

  lemma FileLeaf(nodes: seq<Node>, i: nat, at: seq<string>)
    requires i < |nodes| && nodes[i].children == []
    ensures EnumeratesChild([[i]], nodes, i, at, LeavesOf(nodes[i], at))
  {
    forall a
      ensures a in [[i]] <==> HasLeaf(nodes, a) && a[0] == i
    {
      if HasLeaf(nodes, a) && a[0] == i {
        assert |a| > 1 ==> At(nodes[i].children, a[1..]) == None;
        assert a == [i];
      }
    }
    assert PathTo(nodes, [i]) == [TrimSpace(nodes[i].name)];
  }

  lemma OrderOfBoth(own: seq<seq<nat>>, later: seq<seq<nat>>, i: nat)
    requires InOrder(own) && InOrder(later)
    requires forall a :: a in own ==> a != [] && a[0] == i
    requires forall a :: a in later ==> a != [] && a[0] > i
    ensures InOrder(own + later)
  {
    var all := own + later;
    forall k, m | 0 <= k < m < |all|
      ensures Earlier(all[k], all[m])
    {
      if m < |own| {
        assert all[k] == own[k] && all[m] == own[m];
      } else if k < |own| {
        assert all[k] in own && all[m] in later;
      } else {
        assert all[k] == later[k - |own|] && all[m] == later[m - |own|];
      }
    }
  }

  lemma LeavesOfBothAt(
      nodes: seq<Node>, at: seq<string>, own: seq<seq<nat>>, ownLeaves: seq<Leaf>, later: seq<seq<nat>>,
      laterLeaves: seq<Leaf>)
    requires AtTheirAddresses(own, nodes, at, ownLeaves) && AtTheirAddresses(later, nodes, at, laterLeaves)
    ensures AtTheirAddresses(own + later, nodes, at, ownLeaves + laterLeaves)
  {
    var addresses, leaves := own + later, ownLeaves + laterLeaves;
    forall i | 0 <= i < |leaves|
      ensures IsLeafAt(nodes, addresses[i], at, leaves[i])
    {
      if i < |own| {
        assert IsLeafAt(nodes, own[i], at, ownLeaves[i]);
      } else {
        assert IsLeafAt(nodes, later[i - |own|], at, laterLeaves[i - |own|]);
      }
    }
  }

  lemma ChildFirst(
      nodes: seq<Node>, i: nat, at: seq<string>, own: seq<seq<nat>>, ownLeaves: seq<Leaf>, later: seq<seq<nat>>,
      laterLeaves: seq<Leaf>)
    requires EnumeratesChild(own, nodes, i, at, ownLeaves) && Enumerates(later, nodes, i + 1, at, laterLeaves)
    ensures Enumerates(own + later, nodes, i, at, ownLeaves + laterLeaves)
  {
    LeavesOfBothAt(nodes, at, own, ownLeaves, later, laterLeaves);
    OrderOfBoth(own, later, i);
    forall a
      ensures a in own + later <==> HasLeaf(nodes, a) && a[0] >= i
    {
      assert a in own + later <==> a in own || a in later;
    }
  }

  lemma {:induction false} LeavesFrom(nodes: seq<Node>, first: nat, at: seq<string>) returns (addresses: seq<seq<nat>>)
    requires first <= |nodes|
    ensures Enumerates(addresses, nodes, first, at, Leaves(nodes[first..], at))
    decreases nodes, |nodes| - first
  {
    if first == |nodes| {
      addresses := [];
      assert forall a :: At(nodes, a).Some? ==> a[0] < |nodes|;
    } else {
      var n := nodes[first];
      var own := [[first]];
      if n.children == [] {
        FileLeaf(nodes, first, at);
      } else {
        var below := LeavesFrom(n.children, 0, at + [TrimSpace(n.name)]);
        assert n.children[0..] == n.children;
        DirectoryLeaves(nodes, first, at, below, LeavesOf(n, at));
        own := Under(first, below);
      }
      var later := LeavesFrom(nodes, first + 1, at);
      assert nodes[first..][1..] == nodes[first + 1..];
      ChildFirst(nodes, first, at, own, LeavesOf(n, at), later, Leaves(nodes[first + 1..], at));
      addresses := own + later;
    }
  }

  /**
   The leaves that flattening takes are those of the tree: one for every node without children, in the
   order of the walk, with its size and link and the names on the way to it.
   */
  lemma LeavesAreThoseOfTheTree(nodes: seq<Node>, at: seq<string>)
    ensures exists addresses :: Enumerates(addresses, nodes, 0, at, Leaves(nodes, at))
  {
    var addresses := LeavesFrom(nodes, 0, at);
    assert nodes[0..] == nodes;
  }

  /** A file shows its leaf: the path splits into the names, the name is the last of them. */
  lemma FileShowsItsLeaf(leaf: Leaf, digest: string -> string)
    requires leaf.path != [] && IsPath(leaf.path)
    ensures var file := FileOf(leaf, digest);
            && Split(file.relativePath) == leaf.path && file.name == leaf.path[|leaf.path| - 1]
            && file.size == leaf.size && file.link == leaf.link
  {
    SplitOfJoin(leaf.path);
  }
}
