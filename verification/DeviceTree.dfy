/** The binary search tree of device paths: an iterative insert through the address of a link, a
    recursive in-order walk and a recursive free. */
module DeviceTree {
  import opened Sequences

  /** A path without its terminator: characters from 1 to 255. */
  type Path = seq<nat>

  // ---- strcmp

  /** `strcmp(a, b) < 0`. */
  predicate Less(a: Path, b: Path)
  {
    if b == [] then false
    else if a == [] then true
    else if a[0] != b[0] then a[0] < b[0]
    else Less(a[1..], b[1..])
  }

  lemma {:induction false} LessTrichotomy(a: Path, b: Path)
    ensures Less(a, b) || a == b || Less(b, a)
    ensures !(Less(a, b) && Less(b, a)) && !Less(a, a)
  {
    if a != [] && b != [] && a[0] == b[0] {
      LessTrichotomy(a[1..], b[1..]);
      assert a == [a[0]] + a[1..] && b == [b[0]] + b[1..];
    }
    if a != [] { LessIrreflexive(a); }
  }

  /** `a` and `b` agree before position `k`, and there `a` ends or has the smaller character. */
  ghost predicate LessAt(a: Path, b: Path, k: nat)
  {
    k <= |a| && k < |b| && a[..k] == b[..k] && (k < |a| ==> a[k] < b[k])
  }

  lemma SameFirst(a: Path, b: Path, k: nat)
    requires LessAt(a, b, k) && k > 0
    ensures a != [] && b != [] && a[0] == b[0]
  {
    assert a[..k][0] == b[..k][0];
  }

  /** The order is that of the first difference, a prefix being the smaller one. */
  lemma {:induction false} LessMeaning(a: Path, b: Path)
    ensures Less(a, b) <==> exists k: nat :: LessAt(a, b, k)
  {
    if a == [] || b == [] || a[0] != b[0] {
      if Less(a, b) { assert LessAt(a, b, 0); }
      if k: nat :| LessAt(a, b, k) {
        if k > 0 { SameFirst(a, b, k); }
      }
    } else {
      LessMeaning(a[1..], b[1..]);
      if k: nat :| LessAt(a[1..], b[1..], k) {
        assert a[..k + 1] == [a[0]] + a[1..][..k] && b[..k + 1] == [b[0]] + b[1..][..k];
        assert LessAt(a, b, k + 1);
      }
      if k: nat :| LessAt(a, b, k) {
        assert k > 0;
        assert a[1..][..k - 1] == a[..k][1..] && b[1..][..k - 1] == b[..k][1..];
        assert LessAt(a[1..], b[1..], k - 1);
      }
    }
  }

  lemma {:induction false} LessIrreflexive(a: Path)
    ensures !Less(a, a)
  {
    if a != [] { LessIrreflexive(a[1..]); }
  }

  lemma {:induction false} LessTransitive(a: Path, b: Path, c: Path)
    requires Less(a, b) && Less(b, c)
    ensures Less(a, c)
  {
    if a != [] && b != [] && c != [] && a[0] == b[0] == c[0] {
      LessTransitive(a[1..], b[1..], c[1..]);
    }
  }

  // ---- nodes and the tree they form

  class Node {
    const path: Path
    var left: Node?
    var right: Node?

    constructor (path: Path)
      ensures this.path == path && left == null && right == null
    {
      this.path := path;
      left, right := null, null;
    }
  }

  datatype Tree = Leaf | Branch(left: Tree, node: Node, right: Tree)

  ghost function Nodes(t: Tree): set<Node>
  {
    match t
    case Leaf => {}
    case Branch(l, n, r) => Nodes(l) + {n} + Nodes(r)
  }

  /** The paths in the order left, node, right. */
  ghost function InOrder(t: Tree): seq<Path>
  {
    match t
    case Leaf => []
    case Branch(l, n, r) => InOrder(l) + [n.path] + InOrder(r)
  }

  /** The links from `p` form exactly the tree `t`, in which no node occurs twice. */
  ghost predicate Shape(p: Node?, t: Tree)
    reads Nodes(t)
  {
    match t
    case Leaf => p == null
    case Branch(l, n, r) =>
      && p == n && Shape(n.left, l) && Shape(n.right, r)
      && n !in Nodes(l) && n !in Nodes(r) && Nodes(l) !! Nodes(r)
  }

  ghost predicate Sorted(s: seq<Path>)
  {
    forall i, j :: 0 <= i < j < |s| ==> Less(s[i], s[j])
  }

  // ---- where an insert goes

  /** The subtree under the link that a search for `path` inspects after `k` steps. */
  ghost function Below(t: Tree, path: Path): Tree
    requires t.Branch?
  {
    if Less(path, t.node.path) then t.left else t.right
  }

  /** The node that holds `path` on its search path, if any. */
  ghost function Search(t: Tree, path: Path): Node?
  {
    match t
    case Leaf => null
    case Branch(l, n, r) => if n.path == path then n else Search(Below(t, path), path)
  }

  /** The tree with `x` put where the search for its path ends. */
  ghost function Insert(t: Tree, x: Node): Tree
    requires Search(t, x.path) == null
  {
    match t
    case Leaf => Branch(Leaf, x, Leaf)
    case Branch(l, n, r) =>
      if Less(x.path, n.path) then Branch(Insert(l, x), n, r) else Branch(l, n, Insert(r, x))
  }

  /** The last node on the search path of `path`. */
  ghost function Last(t: Tree, path: Path): Node
    requires t.Branch?
  {
    var b := Below(t, path);
    if b.Leaf? then t.node else Last(b, path)
  }

  // ---- sorted sequences

  ghost predicate AllLess(s: seq<Path>, path: Path)
  {
    forall i :: 0 <= i < |s| ==> Less(s[i], path)
  }

  ghost predicate AllGreater(s: seq<Path>, path: Path)
  {
    forall i :: 0 <= i < |s| ==> Less(path, s[i])
  }

  lemma Around(a: seq<Path>, m: Path, b: seq<Path>) returns (s: seq<Path>)
    ensures s == a + [m] + b && s[|a|] == m
    ensures forall i :: 0 <= i < |a| ==> s[i] == a[i]
    ensures forall i :: 0 <= i < |b| ==> s[|a| + 1 + i] == b[i]
    ensures forall i :: |a| < i < |s| ==> s[i] == b[i - |a| - 1]
  {
    s := a + [m] + b;
  }

  lemma SortedParts(a: seq<Path>, m: Path, b: seq<Path>)
    requires Sorted(a + [m] + b)
    ensures Sorted(a) && Sorted(b) && AllLess(a, m) && AllGreater(b, m)
  {
    hide Less;
    var s := Around(a, m, b);
    forall i, j | 0 <= i < j < |a| ensures Less(a[i], a[j]) { assert Less(s[i], s[j]); }
    forall i, j | 0 <= i < j < |b| ensures Less(b[i], b[j]) { assert Less(s[|a| + 1 + i], s[|a| + 1 + j]); }
    forall i | 0 <= i < |a| ensures Less(a[i], m) { assert Less(s[i], s[|a|]); }
    forall i | 0 <= i < |b| ensures Less(m, b[i]) { assert Less(s[|a|], s[|a| + 1 + i]); }
  }

  lemma SortedJoin(a: seq<Path>, m: Path, b: seq<Path>)
    requires Sorted(a) && Sorted(b) && AllLess(a, m) && AllGreater(b, m)
    ensures Sorted(a + [m] + b)
  {
    hide Less;
    var s := Around(a, m, b);
    forall i, j | 0 <= i < j < |s| ensures Less(s[i], s[j]) {
      if i < |a| {
        if j > |a| { LessTransitive(s[i], m, s[j]); }
      } else if i > |a| {
        assert Less(b[i - |a| - 1], b[j - |a| - 1]);
      }
    }
  }

  lemma SortedAround(a: seq<Path>, m: Path, b: seq<Path>)
    ensures Sorted(a + [m] + b) <==> Sorted(a) && Sorted(b) && AllLess(a, m) && AllGreater(b, m)
  {
    hide Sorted, AllLess, AllGreater, Less;
    if Sorted(a + [m] + b) { SortedParts(a, m, b); }
    if Sorted(a) && Sorted(b) && AllLess(a, m) && AllGreater(b, m) { SortedJoin(a, m, b); }
  }

  /** In a sorted tree the search finds exactly the paths that are in the tree. */
  lemma {:induction false} SearchFinds(t: Tree, path: Path)
    requires Sorted(InOrder(t))
    ensures Search(t, path) == null <==> path !in InOrder(t)
    ensures Search(t, path) != null ==> Search(t, path) in Nodes(t) && Search(t, path).path == path
  {
    match t
    case Leaf =>
    case Branch(l, n, r) =>
      SortedAround(InOrder(l), n.path, InOrder(r));
      LessTrichotomy(path, n.path);
      SearchFinds(l, path);
      SearchFinds(r, path);
      if path in InOrder(l) { LessTrichotomy(path, n.path); }
      if path in InOrder(r) { LessTrichotomy(n.path, path); }
  }

  lemma {:induction false} InsertMembers(t: Tree, x: Node)
    requires Search(t, x.path) == null
    ensures forall p :: p in InOrder(Insert(t, x)) <==> p in InOrder(t) || p == x.path
    ensures Nodes(Insert(t, x)) == Nodes(t) + {x}
  {
    if t.Branch? { InsertMembers(Below(t, x.path), x); }
  }

  lemma {:induction false} InsertSorted(t: Tree, x: Node)
    requires Sorted(InOrder(t)) && Search(t, x.path) == null
    ensures Sorted(InOrder(Insert(t, x)))
  {
    match t
    case Leaf =>
    case Branch(l, n, r) =>
      SortedAround(InOrder(l), n.path, InOrder(r));
      LessTrichotomy(x.path, n.path);
      InsertSorted(Below(t, x.path), x);
      InsertMembers(Below(t, x.path), x);
      if Less(x.path, n.path) {
        var s := InOrder(Insert(l, x));
        forall i | 0 <= i < |s| ensures Less(s[i], n.path) { assert s[i] in s; }
        SortedAround(s, n.path, InOrder(r));
      } else {
        var s := InOrder(Insert(r, x));
        forall i | 0 <= i < |s| ensures Less(n.path, s[i]) { assert s[i] in s; }
        SortedAround(InOrder(l), n.path, s);
      }
  }

  // ---- the effect of storing a new node in the last link

  datatype Links = Links(left: Node?, right: Node?)

  /** The shape of a tree in a snapshot of the links. */
  ghost predicate ShapeIn(m: map<Node, Links>, p: Node?, t: Tree)
  {
    match t
    case Leaf => p == null
    case Branch(l, n, r) =>
      && n in m && p == n && ShapeIn(m, m[n].left, l) && ShapeIn(m, m[n].right, r)
      && n !in Nodes(l) && n !in Nodes(r) && Nodes(l) !! Nodes(r)
  }

  ghost function Snapshot(t: Tree): (m: map<Node, Links>)
    reads Nodes(t)
    ensures m.Keys == Nodes(t)
  {
    map n | n in Nodes(t) :: Links(n.left, n.right)
  }

  lemma {:induction false} ShapeAgrees(m: map<Node, Links>, p: Node?, t: Tree)
    requires forall n :: n in Nodes(t) ==> n in m && m[n] == Links(n.left, n.right)
    ensures Shape(p, t) <==> ShapeIn(m, p, t)
    decreases t
  {
    match t
    case Leaf =>
    case Branch(l, n, r) =>
      ShapeAgrees(m, n.left, l);
      ShapeAgrees(m, n.right, r);
  }

  lemma {:induction false} ShapeUnmoved(m: map<Node, Links>, m': map<Node, Links>, p: Node?, t: Tree)
    requires ShapeIn(m, p, t)
    requires forall n :: n in Nodes(t) && n in m ==> n in m' && m'[n] == m[n]
    ensures ShapeIn(m', p, t)
    decreases t
  {
    match t
    case Leaf =>
    case Branch(l, n, r) =>
      ShapeUnmoved(m, m', m[n].left, l);
      ShapeUnmoved(m, m', m[n].right, r);
  }

  lemma {:induction false} LastInNodes(t: Tree, path: Path)
    requires t.Branch?
    ensures Last(t, path) in Nodes(t)
  {
    if Below(t, path).Branch? { LastInNodes(Below(t, path), path); }
  }

  /** `m'` is `m` with the new node `x` stored in the link of `parent` that the search followed. */
  ghost predicate Stored(m: map<Node, Links>, m': map<Node, Links>, parent: Node, x: Node)
  {
    && x !in m && x in m' && m'[x] == Links(null, null)
    && (forall n :: n in m && n != parent ==> n in m' && m'[n] == m[n])
    && parent in m && parent in m'
    && m'[parent] == if Less(x.path, parent.path) then m[parent].(left := x) else m[parent].(right := x)
  }

  lemma {:induction false} Grafted(m: map<Node, Links>, m': map<Node, Links>, p: Node?, t: Tree, parent: Node, x: Node)
    requires t.Branch? && ShapeIn(m, p, t) && Search(t, x.path) == null && x !in Nodes(t)
    requires parent == Last(t, x.path) && Stored(m, m', parent, x)
    ensures ShapeIn(m', p, Insert(t, x))
  {
    var l, n, r := t.left, t.node, t.right;
    var below := Below(t, x.path);
    var other := if Less(x.path, n.path) then r else l;
    InsertMembers(below, x);
    if below.Branch? { LastInNodes(below, x.path); }
    ShapeUnmoved(m, m', if Less(x.path, n.path) then m[n].right else m[n].left, other);
    if below.Branch? {
      Grafted(m, m', if Less(x.path, n.path) then m[n].left else m[n].right, below, parent, x);
    }
  }

  class Devices {
    var root: Node?
    ghost var tree: Tree

    /** The links form a tree without sharing, and it is a search tree for the order of strcmp. */
    ghost predicate Valid()
      reads this, Nodes(tree)
    {
      Shape(root, tree) && Sorted(InOrder(tree))
    }

    constructor ()
      ensures Valid() && tree == Leaf
    {
      root, tree := null, Leaf;
    }

    /** stress_bad_ioctl_dev_new: a path already in the tree returns its node; otherwise a new node is
        stored in the link where the search ended, unless strdup fails. */
    method New(path: Path, strdupOk: bool) returns (r: Node?)
      requires Valid()
      modifies this, Nodes(tree)
      ensures Valid()
      ensures path in InOrder(old(tree)) ==> r == Search(old(tree), path) && r != null && tree == old(tree)
      ensures path !in InOrder(old(tree)) && !strdupOk ==> r == null && tree == old(tree)
      ensures path !in InOrder(old(tree)) && strdupOk ==>
                r != null && fresh(r) && r.path == path && Nodes(tree) == Nodes(old(tree)) + {r}
                && forall p :: p in InOrder(tree) <==> p in InOrder(old(tree)) || p == path
    {
      hide Less, Sorted, AllLess, AllGreater;
      SearchFinds(tree, path);
      var head, goLeft := root, false;
      var parent: Node? := null;
      ghost var sub := tree;
      while head != null
        invariant Valid() && tree == old(tree)
        invariant Shape(head, sub) && Nodes(sub) <= Nodes(tree)
        invariant Search(sub, path) == Search(tree, path)
        invariant parent == null ==> sub == tree
        invariant parent != null ==>
                    && tree.Branch? && parent in Nodes(tree)
                    && goLeft == Less(path, parent.path)
                    && Last(tree, path) == if sub.Branch? then Last(sub, path) else parent
        decreases sub
      {
        if head.path == path {
          return head;
        }
        LessTrichotomy(head.path, path);
        parent := head;
        sub := Below(sub, path);
        if Less(path, head.path) {
          goLeft := true;
          head := head.left;
        } else {
          goLeft := false;
          head := head.right;
        }
      }
      if !strdupOk {
        return null;
      }
      ghost var before, p := Snapshot(tree), root;
      ShapeAllocated(root, tree);
      ShapeAgrees(before, root, tree);
      r := new Node(path);
      if parent == null {
        root := r;
      } else if goLeft {
        parent.left := r;
      } else {
        parent.right := r;
      }
      InsertSorted(tree, r);
      InsertMembers(tree, r);
      ghost var after := Snapshot(Insert(tree, r));
      if parent != null { Grafted(before, after, p, tree, parent, r); }
      tree := Insert(tree, r);
      ShapeAgrees(after, root, tree);
    }

    /** The walk of stress_bad_ioctl_dir: left subtree, node, right subtree. */
    method Walk() returns (visited: seq<Path>)
      requires Valid()
      ensures visited == InOrder(tree) && Sorted(visited)
    {
      visited := WalkFrom(root, tree);
    }
  }

  /** The nodes of a tree are reached through links, so they are allocated: a call that changes no
      existing object keeps the shape. */
  lemma {:induction false} ShapeAllocated(p: Node?, t: Tree)
    requires Shape(p, t)
    ensures forall n :: n in Nodes(t) ==> allocated(n)
    decreases t
  {
    match t
    case Leaf =>
    case Branch(l, n, r) =>
      ShapeAllocated(n.left, l);
      ShapeAllocated(n.right, r);
  }

  method WalkFrom(node: Node?, ghost t: Tree) returns (visited: seq<Path>)
    requires Shape(node, t)
    ensures visited == InOrder(t)
    decreases t
  {
    if node == null {
      return [];
    }
    ghost var m := Snapshot(t.right);
    ShapeAllocated(node.right, t.right);
    ShapeAgrees(m, node.right, t.right);
    visited := WalkFrom(node.left, t.left);
    ShapeAgrees(m, node.right, t.right);
    visited := visited + [node.path];
    var rest := WalkFrom(node.right, t.right);
    visited := visited + rest;
  }

  /** The nodes in the order left subtree, right subtree, node. */
  ghost function PostOrder(t: Tree): seq<Node>
  {
    match t
    case Leaf => []
    case Branch(l, n, r) => PostOrder(l) + PostOrder(r) + [n]
  }

  lemma {:induction false} PostOrderMembers(t: Tree, n: Node)
    ensures n in PostOrder(t) <==> n in Nodes(t)
  {
    match t
    case Leaf =>
    case Branch(l, m, r) =>
      PostOrderMembers(l, n);
      PostOrderMembers(r, n);
  }

  lemma Concatenated(a: seq<Node>, b: seq<Node>, n: Node)
    requires NoRepeats(a) && NoRepeats(b) && n !in a && n !in b && forall m :: m in a ==> m !in b
    ensures NoRepeats(a + b + [n])
  {
    var s := a + b + [n];
    forall i, j | 0 <= i < j < |s| ensures s[i] != s[j] {
      if i < |a| {
        assert s[i] in a;
        if j < |a| + |b| && j >= |a| { assert s[j] in b; }
      } else if i < |a| + |b| {
        assert s[i] in b;
      }
    }
  }

  /** Every node of a tree without sharing occurs in the post-order exactly once. */
  lemma {:induction false} PostOrderOnce(p: Node?, t: Tree)
    requires Shape(p, t)
    ensures NoRepeats(PostOrder(t)) && forall n :: n in PostOrder(t) <==> n in Nodes(t)
    decreases t
  {
    forall n ensures n in PostOrder(t) <==> n in Nodes(t) { PostOrderMembers(t, n); }
    match t
    case Leaf =>
    case Branch(l, n, r) =>
      PostOrderOnce(n.left, l);
      PostOrderOnce(n.right, r);
      forall m | m in PostOrder(l) ensures m !in PostOrder(r) {
        PostOrderMembers(l, m);
        PostOrderMembers(r, m);
      }
      PostOrderMembers(l, n);
      PostOrderMembers(r, n);
      Concatenated(PostOrder(l), PostOrder(r), n);
  }

  /** What the recursive free does with the nodes: it reads the left link and frees that subtree, reads
      the right link and frees that subtree, reads the path and releases the node. */
  ghost function FreeTrace(t: Tree): seq<Access<Node>>
  {
    match t
    case Leaf => []
    case Branch(l, n, r) => ([Read(n)] + FreeTrace(l)) + ([Read(n)] + FreeTrace(r)) + [Read(n), Release(n)]
  }

  lemma {:induction false} TraceMembers(t: Tree, i: nat)
    requires i < |FreeTrace(t)|
    ensures FreeTrace(t)[i].node in Nodes(t)
  {
    var Branch(l, n, r) := t;
    var a, b := FreeTrace(l), FreeTrace(r);
    if 1 <= i < 1 + |a| {
      TraceMembers(l, i - 1);
    } else if 2 + |a| <= i < 2 + |a| + |b| {
      TraceMembers(r, i - 2 - |a|);
    }
  }

  lemma SafeConcat(s: seq<Access<Node>>, t: seq<Access<Node>>)
    requires Safe(s) && Safe(t)
    requires forall i, j :: 0 <= i < |s| && 0 <= j < |t| && s[i].Release? ==> t[j].node != s[i].node
    ensures Safe(s + t)
  {
    var u := s + t;
    forall i, j | 0 <= i < j < |u| && u[i].Release? ensures u[j].node != u[i].node {
      if i >= |s| { assert t[i - |s|].Release?; }
    }
  }

  lemma SafeBehindRead(n: Node, s: seq<Access<Node>>)
    requires Safe(s)
    ensures Safe([Read(n)] + s)
  {
    var u := [Read(n)] + s;
    forall i, j | 0 <= i < j < |u| && u[i].Release? ensures u[j].node != u[i].node {
      assert s[i - 1].Release?;
    }
  }

  /** `s` concerns only `n` and nodes of `t`, and releases only the latter. */
  ghost predicate Within(s: seq<Access<Node>>, n: Node, t: Tree)
  {
    forall i :: 0 <= i < |s| ==> if s[i].Release? then s[i].node in Nodes(t) else s[i].node == n || s[i].node in Nodes(t)
  }

  lemma SubtreeTrace(n: Node, t: Tree)
    requires Safe(FreeTrace(t))
    ensures Safe([Read(n)] + FreeTrace(t)) && Within([Read(n)] + FreeTrace(t), n, t)
  {
    var s := [Read(n)] + FreeTrace(t);
    SafeBehindRead(n, FreeTrace(t));
    forall i | 0 < i < |s| ensures s[i].node in Nodes(t) {
      TraceMembers(t, i - 1);
    }
  }

  lemma SafeSubtrees(a: seq<Access<Node>>, b: seq<Access<Node>>, l: Tree, n: Node, r: Tree)
    requires Safe(a) && Safe(b) && Within(a, n, l) && Within(b, n, r)
    requires n !in Nodes(l) && n !in Nodes(r) && Nodes(l) !! Nodes(r)
    ensures Safe(a + b) && forall i :: 0 <= i < |a + b| && (a + b)[i].Release? ==> (a + b)[i].node != n
  {
    hide Safe, Nodes;
    forall i, j | 0 <= i < |a| && 0 <= j < |b| && a[i].Release? ensures b[j].node != a[i].node {
      assert a[i].node in Nodes(l) && a[i].node !in Nodes(r);
    }
    SafeConcat(a, b);
  }

  /** In a tree without sharing no node is read after it was released, or released twice. */
  lemma {:induction false} FreeIsSafe(p: Node?, t: Tree)
    requires Shape(p, t)
    ensures Safe(FreeTrace(t))
    decreases t
  {
    match t
    case Leaf =>
    case Branch(l, n, r) =>
      FreeIsSafe(n.left, l);
      FreeIsSafe(n.right, r);
      SafeBranch(l, n, r);
  }

  lemma SafeBranch(l: Tree, n: Node, r: Tree)
    requires Safe(FreeTrace(l)) && Safe(FreeTrace(r))
    requires n !in Nodes(l) && n !in Nodes(r) && Nodes(l) !! Nodes(r)
    ensures Safe(FreeTrace(Branch(l, n, r)))
  {
    hide Nodes, Within;
    var a, b := [Read(n)] + FreeTrace(l), [Read(n)] + FreeTrace(r);
    SubtreeTrace(n, l);
    SubtreeTrace(n, r);
    SafeSubtrees(a, b, l, n, r);
    LastAccess(n);
    SafeConcat(a + b, [Read(n), Release(n)]);
  }

  lemma LastAccess(n: Node)
    ensures Safe([Read(n), Release(n)])
  {}

  /** The nodes released, in order. */
  ghost function Released(trace: seq<Access<Node>>): seq<Node>
  {
    if trace == [] then []
    else (if trace[0].Release? then [trace[0].node] else []) + Released(trace[1..])
  }

  lemma {:induction false} ReleasedConcat(s: seq<Access<Node>>, t: seq<Access<Node>>)
    ensures Released(s + t) == Released(s) + Released(t)
  {
    if s == [] {
      assert s + t == t;
    } else {
      assert (s + t)[1..] == s[1..] + t;
      ReleasedConcat(s[1..], t);
    }
  }

  lemma ReleasedRead(n: Node)
    ensures Released([Read(n)]) == [] && Released([Read(n), Release(n)]) == [n]
  {
    assert [Read(n)][1..] == [];
    assert [Read(n), Release(n)][1..] == [Release(n)] && [Release(n)][1..] == [];
    assert Released([Release(n)]) == [n];
  }

  /** The nodes are released in post-order. */
  lemma {:induction false} ReleasedPostOrder(t: Tree)
    ensures Released(FreeTrace(t)) == PostOrder(t)
  {
    match t
    case Leaf =>
    case Branch(l, n, r) =>
      ReleasedPostOrder(l);
      ReleasedPostOrder(r);
      var a, b := [Read(n)] + FreeTrace(l), [Read(n)] + FreeTrace(r);
      ReleasedRead(n);
      ReleasedConcat([Read(n)], FreeTrace(l));
      ReleasedConcat([Read(n)], FreeTrace(r));
      ReleasedConcat(a, b);
      ReleasedConcat(a + b, [Read(n), Release(n)]);
  }

  /** stress_bad_ioctl_dev_free: both subtrees are freed before their node, every node once, and none
      is read after it was freed. */
  method DevFree(node: Node?, ghost t: Tree) returns (freed: seq<Node>, ghost trace: seq<Access<Node>>)
    requires Shape(node, t)
    ensures freed == PostOrder(t) && NoRepeats(freed)
    ensures trace == FreeTrace(t) && Safe(trace)
    decreases t
  {
    PostOrderOnce(node, t);
    FreeIsSafe(node, t);
    if node == null {
      return [], [];
    }
    var n: Node := node;
    ghost var m := Snapshot(t.right);
    ShapeAllocated(node.right, t.right);
    ShapeAgrees(m, node.right, t.right);
    ghost var first, second;
    freed, first := DevFree(node.left, t.left);
    ShapeAgrees(m, node.right, t.right);
    var right;
    right, second := DevFree(node.right, t.right);
    freed := freed + right + [node];
    trace := ([Read(n)] + first) + ([Read(n)] + second) + [Read(n), Release(n)];
  }

  /** Inserting any sequence of paths and walking the tree visits exactly the distinct paths for which
      memory was had, each once, in strictly increasing order. */
  method InsertAndWalk(paths: seq<Path>, memory: seq<bool>) returns (visited: seq<Path>)
    requires |memory| == |paths|
    ensures Sorted(visited)
    ensures forall p :: p in visited <==> exists i :: 0 <= i < |paths| && paths[i] == p && memory[i]
  {
    var devices := new Devices();
    for k := 0 to |paths|
      invariant fresh(devices) && fresh(Nodes(devices.tree)) && devices.Valid()
      invariant forall p :: p in InOrder(devices.tree) <==> exists i :: 0 <= i < k && paths[i] == p && memory[i]
    {
      var r := devices.New(paths[k], memory[k]);
    }
    visited := devices.Walk();
  }
}
