/** The bounded search for a path by inode (`find_path_by_inode`). */
module PathSearch {
  import opened Wire
  import opened PathHash

  /** A filesystem node as the search meets it: its path, whether it is a directory, whether
      that directory can be read, and its readable entries in enumeration order. The tree may be
      cut off anywhere below the depth the search goes to, so cyclic links are covered too. */
  datatype Node = Node(path: seq<byte>, isDir: bool, readable: bool, children: seq<Node>)

  predicate Opens(n: Node) { n.isDir && n.readable }

  /** The paths within `left` levels below `n`, a directory before its contents. */
  function Preorder(n: Node, left: nat): seq<seq<byte>>
    decreases left, 0
  {
    if left == 0 || !Opens(n) then [n.path] else [n.path] + PreorderAll(n.children, left - 1)
  }

  function PreorderAll(ns: seq<Node>, left: nat): seq<seq<byte>>
    decreases left, 1 + |ns|
  {
    if ns == [] then [] else PreorderAll(ns[..|ns| - 1], left) + Preorder(ns[|ns| - 1], left)
  }

  function FirstMatch(paths: seq<seq<byte>>, target: u64): Option<seq<byte>> {
    if paths == [] then None
    else if Fnv1a(paths[0]) == target then Some(paths[0])
    else FirstMatch(paths[1..], target)
  }

  lemma {:induction false} FirstMatchAppend(a: seq<seq<byte>>, b: seq<seq<byte>>, target: u64)
    ensures FirstMatch(a + b, target) ==
            if FirstMatch(a, target).Some? then FirstMatch(a, target) else FirstMatch(b, target)
    decreases |a|
  {
    hide Fnv1a;
    if a == [] {
      assert a + b == b;
    } else {
      assert (a + b)[0] == a[0] && (a + b)[1..] == a[1..] + b;
      FirstMatchAppend(a[1..], b, target);
    }
  }

  method FindPathByInode(dir: Node, target: u64, depth: nat, maxDepth: nat) returns (r: Option<seq<byte>>)
    requires depth <= maxDepth
    ensures r == FirstMatch(Preorder(dir, maxDepth - depth), target)
    decreases maxDepth - depth
  {
    hide Fnv1a;
    var left := maxDepth - depth;
    FirstMatchAppend([dir.path], if left > 0 && Opens(dir) then PreorderAll(dir.children, left - 1) else [], target);
    assert [dir.path] + [] == [dir.path];
    var hash := GetInode(dir.path);
    if hash == target {
      return Some(dir.path);
    }
    if depth >= maxDepth {
      return None;
    }
    if !(dir.isDir && dir.readable) {
      return None;
    }
    var children := dir.children;
    for i := 0 to |children|
      invariant FirstMatch(PreorderAll(children[..i], left - 1), target).None?
    {
      var entry := children[i];
      Prefixes(children, i, left - 1, target);
      FirstMatchAppend(
        [entry.path], if left > 1 && Opens(entry) then PreorderAll(entry.children, left - 2) else [], target);
      assert [entry.path] + [] == [entry.path];
      var entryHash := GetInode(entry.path);
      if entryHash == target {
        return Some(entry.path);
      }
      if entry.isDir {
        var found := FindPathByInode(entry, target, depth + 1, maxDepth);
        if found.Some? {
          return found;
        }
      }
    }
    assert children[..|children|] == children;
    return None;
  }

  /** Entry `i` decides the search of all entries when the entries before it have no match. */
  lemma Prefixes(ns: seq<Node>, i: nat, left: nat, target: u64)
    requires i < |ns| && FirstMatch(PreorderAll(ns[..i], left), target).None?
    ensures FirstMatch(PreorderAll(ns[..i + 1], left), target) == FirstMatch(Preorder(ns[i], left), target)
    ensures FirstMatch(Preorder(ns[i], left), target).Some? ==>
              FirstMatch(PreorderAll(ns, left), target) == FirstMatch(Preorder(ns[i], left), target)
  {
    hide Fnv1a;
    assert ns[..i + 1][..i] == ns[..i];
    FirstMatchAppend(PreorderAll(ns[..i], left), Preorder(ns[i], left), target);
    PreorderAllPrefix(ns, i + 1, left, target);
  }

  lemma {:induction false} PreorderAllPrefix(ns: seq<Node>, k: nat, left: nat, target: u64)
    requires k <= |ns|
    ensures FirstMatch(PreorderAll(ns[..k], left), target).Some? ==>
              FirstMatch(PreorderAll(ns, left), target) == FirstMatch(PreorderAll(ns[..k], left), target)
    decreases |ns|
  {
    hide Fnv1a;
    if k == |ns| {
      assert ns[..k] == ns;
    } else {
      var n := |ns| - 1;
      PreorderAllPrefix(ns[..n], k, left, target);
      assert ns[..n][..k] == ns[..k];
      FirstMatchAppend(PreorderAll(ns[..n], left), Preorder(ns[n], left), target);
    }
  }

  // ----- what the search finds -----

  /** Following child indices down through directories that open. */
  predicate Route(n: Node, steps: seq<nat>) {
    steps == [] ||
    (n.isDir && n.readable && steps[0] < |n.children| && Route(n.children[steps[0]], steps[1..]))
  }

  function Reached(n: Node, steps: seq<nat>): Node
    requires Route(n, steps)
  {
    if steps == [] then n else Reached(n.children[steps[0]], steps[1..])
  }

  ghost predicate WithinReach(n: Node, left: nat, p: seq<byte>) {
    exists steps :: |steps| <= left && Route(n, steps) && Reached(n, steps).path == p
  }

  /** The search looks at exactly the nodes that can be reached in at most `left` steps. */
  lemma PreorderReach(n: Node, left: nat, p: seq<byte>)
    ensures p in Preorder(n, left) <==> WithinReach(n, left, p)
  {
    if p in Preorder(n, left) { var steps := RouteTo(n, left, p); }
    if WithinReach(n, left, p) {
      var steps :| |steps| <= left && Route(n, steps) && Reached(n, steps).path == p;
      RouteIsSearched(n, left, steps);
    }
  }

  lemma {:induction false} RouteTo(n: Node, left: nat, p: seq<byte>) returns (steps: seq<nat>)
    requires p in Preorder(n, left)
    ensures |steps| <= left && Route(n, steps) && Reached(n, steps).path == p
    decreases left
  {
    if p == n.path {
      steps := [];
    } else {
      var i := MemberOfAll(n.children, left - 1, p);
      var rest := RouteTo(n.children[i], left - 1, p);
      steps := [i] + rest;
      assert steps[1..] == rest;
    }
  }

  lemma {:induction false} RouteIsSearched(n: Node, left: nat, steps: seq<nat>)
    requires |steps| <= left && Route(n, steps)
    ensures Reached(n, steps).path in Preorder(n, left)
    decreases left
  {
    if steps != [] {
      var child := n.children[steps[0]];
      RouteIsSearched(child, left - 1, steps[1..]);
      AllHasMembers(n.children, left - 1, steps[0], Reached(n, steps).path);
    }
  }

  lemma {:induction false} MemberOfAll(ns: seq<Node>, left: nat, p: seq<byte>) returns (i: nat)
    requires p in PreorderAll(ns, left)
    ensures i < |ns| && p in Preorder(ns[i], left)
    decreases |ns|
  {
    var n := |ns| - 1;
    if p in Preorder(ns[n], left) { i := n; } else { i := MemberOfAll(ns[..n], left, p); }
  }

  lemma {:induction false} AllHasMembers(ns: seq<Node>, left: nat, i: nat, p: seq<byte>)
    requires i < |ns| && p in Preorder(ns[i], left)
    ensures p in PreorderAll(ns, left)
    decreases |ns|
  {
    var n := |ns| - 1;
    if i < n { AllHasMembers(ns[..n], left, i, p); }
  }

  lemma {:induction false} FirstMatchExact(paths: seq<seq<byte>>, target: u64)
    ensures var r := FirstMatch(paths, target);
            && (r.None? <==> forall p :: p in paths ==> Fnv1a(p) != target)
            && (r.Some? ==> r.value in paths && Fnv1a(r.value) == target)
            && (r.Some? ==> exists k :: 0 <= k < |paths| && paths[k] == r.value
                                        && forall j :: 0 <= j < k ==> Fnv1a(paths[j]) != target)
  {
    hide Fnv1a;
    if paths != [] {
      FirstMatchExact(paths[1..], target);
      var r := FirstMatch(paths, target);
      if Fnv1a(paths[0]) == target {
        assert paths[0] in paths && paths[0] == r.value;
      } else {
        assert forall p :: p in paths <==> p == paths[0] || p in paths[1..];
        if r.Some? {
          var k :| 0 <= k < |paths| - 1 && paths[1..][k] == r.value
                   && forall j :: 0 <= j < k ==> Fnv1a(paths[1..][j]) != target;
          forall j | 0 <= j < k + 1 ensures Fnv1a(paths[j]) != target {
            if j > 0 { assert paths[1..][j - 1] == paths[j]; }
          }
          assert paths[k + 1] == r.value;
        }
      }
    }
  }

  /** The search fails exactly when no node within reach hashes to the inode, and what it finds
      hashes to it and is within reach. */
  lemma SearchExact(dir: Node, target: u64, maxDepth: nat)
    ensures var r := FirstMatch(Preorder(dir, maxDepth), target);
            && (r.None? <==> forall p :: WithinReach(dir, maxDepth, p) ==> Fnv1a(p) != target)
            && (r.Some? ==> Fnv1a(r.value) == target && WithinReach(dir, maxDepth, r.value))
  {
    hide Fnv1a, Preorder, FirstMatch, WithinReach;
    FirstMatchExact(Preorder(dir, maxDepth), target);
    forall p ensures p in Preorder(dir, maxDepth) <==> WithinReach(dir, maxDepth, p) {
      PreorderReach(dir, maxDepth, p);
    }
  }

  // ----- which of several matches is found -----

  /** Depth first: a directory comes before what is in it, entries in their order. */
  predicate Earlier(a: seq<nat>, b: seq<nat>) {
    b != [] && (a == [] || a[0] < b[0] || (a[0] == b[0] && Earlier(a[1..], b[1..])))
  }

  ghost predicate Hits(n: Node, left: nat, target: u64, steps: seq<nat>) {
    |steps| <= left && Route(n, steps) && Fnv1a(Reached(n, steps).path) == target
  }

  lemma NoHits(n: Node, left: nat, target: u64, steps: seq<nat>)
    requires FirstMatch(Preorder(n, left), target).None?
    ensures !Hits(n, left, target, steps)
  {
    hide Fnv1a;
    FirstMatchExact(Preorder(n, left), target);
    if Hits(n, left, target, steps) { RouteIsSearched(n, left, steps); }
  }

  lemma FirstChild(ns: seq<Node>, left: nat, target: u64) returns (i: nat)
    requires FirstMatch(PreorderAll(ns, left), target).Some?
    ensures i < |ns| && FirstMatch(PreorderAll(ns, left), target) == FirstMatch(Preorder(ns[i], left), target)
    ensures forall j :: 0 <= j < i ==> FirstMatch(Preorder(ns[j], left), target).None?
  {
    hide Fnv1a, Preorder;
    i := 0;
    assert ns[..0] == [];
    while FirstMatch(PreorderAll(ns[..i + 1], left), target).None?
      invariant i < |ns| && FirstMatch(PreorderAll(ns[..i], left), target).None?
      invariant forall j :: 0 <= j < i ==> FirstMatch(Preorder(ns[j], left), target).None?
      decreases |ns| - i
    {
      Prefixes(ns, i, left, target);
      assert ns[..|ns|] == ns;
      i := i + 1;
    }
    Prefixes(ns, i, left, target);
  }

  /** Of all nodes within reach that hash to the inode, the search finds the one that comes first. */
  lemma {:induction false} FirstRoute(n: Node, left: nat, target: u64) returns (steps: seq<nat>)
    requires FirstMatch(Preorder(n, left), target).Some?
    ensures Hits(n, left, target, steps)
    ensures FirstMatch(Preorder(n, left), target) == Some(Reached(n, steps).path)
    ensures forall other :: Hits(n, left, target, other) ==> other == steps || Earlier(steps, other)
    decreases left
  {
    hide Fnv1a;
    if Fnv1a(n.path) == target {
      steps := [];
    } else {
      var all := PreorderAll(n.children, left - 1);
      FirstMatchAppend([n.path], all, target);
      var i := FirstChild(n.children, left - 1, target);
      var rest := FirstRoute(n.children[i], left - 1, target);
      steps := [i] + rest;
      assert steps[1..] == rest;
      forall other | Hits(n, left, target, other) ensures other == steps || Earlier(steps, other) {
        var j := other[0];
        assert Hits(n.children[j], left - 1, target, other[1..]);
        if j < i { NoHits(n.children[j], left - 1, target, other[1..]); }
        assert other == [j] + other[1..];
      }
    }
  }
}
