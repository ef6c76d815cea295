/** The marketplace's category tree and the notions used to describe what
    flattening it should produce: the nodes of a tree in pre-order, its leaves,
    its root-to-leaf paths and the display name of a path. */
module Catalogue {
  import opened Wrappers

  /** A catalogue node as the catalogue JSON delivers it. `children` records
      whether the node carries a `children` key at all: the traversal tests for
      the key, not for a non-empty list. Leaves are expected to carry a `url`. */
  datatype Node = Node(name: string, children: Children, url: Option<string>)

  datatype Children = Absent | Present(nodes: seq<Node>)

  /** One flattened entry: the full display path and the leaf's url fragment. */
  datatype Category = Category(name: string, url: string)

  /** Written after every ancestor's name in a display path. */
  const Separator: string := " -> "

  /** A node is a leaf exactly when it has no `children` key; a present but
      empty list still makes it internal. */
  predicate IsLeaf(n: Node)
  {
    n.children.Absent?
  }

  /** Every node of the tree rooted at `n`, in depth-first pre-order. */
  function AllNodes(n: Node): seq<Node>
    decreases n
  {
    match n.children
    case Absent => [n]
    case Present(cs) => [n] + AllNodesOf(cs)
  }

  /** Every node of every tree in `cs`, tree after tree. */
  function AllNodesOf(cs: seq<Node>): seq<Node>
    decreases cs
  {
    if cs == [] then [] else AllNodesOf(cs[..|cs| - 1]) + AllNodes(cs[|cs| - 1])
  }

  /** The leaves among `s`, in the order in which they occur there. */
  function LeavesOf(s: seq<Node>): (r: seq<Node>)
    ensures |r| <= |s|
    ensures forall m :: m in r <==> m in s && IsLeaf(m)
  {
    if s == [] then []
    else LeavesOf(s[..|s| - 1]) + (if IsLeaf(s[|s| - 1]) then [s[|s| - 1]] else [])
  }

  lemma {:induction false} LeavesOfAppend(a: seq<Node>, b: seq<Node>)
    ensures LeavesOf(a + b) == LeavesOf(a) + LeavesOf(b)
    decreases |b|
  {
    if b == [] {
      assert a + b == a;
    } else {
      var b' := b[..|b| - 1];
      assert (a + b)[..|a + b| - 1] == a + b';
      assert (a + b)[|a + b| - 1] == b[|b| - 1];
      LeavesOfAppend(a, b');
    }
  }

  /** The number of nodes of the tree that have no `children` key. */
  function LeafCount(n: Node): nat
  {
    |LeavesOf(AllNodes(n))|
  }

  /** A path through the tree, root first. */
  type Chain = c: seq<Node> | |c| >= 1 witness [Node("", Absent, None)]

  function Last(c: Chain): Node
  {
    c[|c| - 1]
  }

  /** The last node of every path, in order. */
  function Lasts(paths: seq<Chain>): seq<Node>
  {
    seq(|paths|, i requires 0 <= i < |paths| => Last(paths[i]))
  }

  /** Puts `n` in front of every path. */
  function Extend(n: Node, paths: seq<Chain>): seq<Chain>
  {
    seq(|paths|, i requires 0 <= i < |paths| => [n] + paths[i])
  }

  /** Every root-to-leaf path of the tree rooted at `n`, in depth-first
      pre-order, following the order in which children are listed. */
  function LeafPaths(n: Node): seq<Chain>
    decreases n
  {
    match n.children
    case Absent => [[n]]
    case Present(cs) => Extend(n, LeafPathsOf(cs))
  }

  /** The root-to-leaf paths of every tree in `cs`, tree after tree. */
  function LeafPathsOf(cs: seq<Node>): seq<Chain>
    decreases cs
  {
    if cs == [] then [] else LeafPathsOf(cs[..|cs| - 1]) + LeafPaths(cs[|cs| - 1])
  }

  /** The display name of a path: the name of every node but the last, each
      followed by the separator, then the last node's own name. */
  function PathName(c: Chain): string
    decreases |c|
  {
    if |c| == 1 then c[0].name else c[0].name + Separator + PathName(c[1..])
  }

  /** `c` starts at `n`, steps from each node to one of its listed children and
      stops at a leaf. */
  ghost predicate IsRootToLeaf(n: Node, c: Chain)
  {
    && c[0] == n
    && IsLeaf(Last(c))
    && forall i | 0 <= i < |c| - 1 :: c[i].children.Present? && c[i + 1] in c[i].children.nodes
  }

  /** Every path `LeafPaths` lists is a genuine root-to-leaf path. */
  lemma {:induction false} LeafPathsAreRootToLeaf(n: Node)
    ensures forall i | 0 <= i < |LeafPaths(n)| :: IsRootToLeaf(n, LeafPaths(n)[i])
    decreases n
  {
    match n.children
    case Absent =>
    case Present(cs) =>
      LeafPathsOfStartInChildren(cs);
      var inner := LeafPathsOf(cs);
      forall i | 0 <= i < |LeafPaths(n)|
        ensures IsRootToLeaf(n, LeafPaths(n)[i])
      {
        var d := inner[i];
        var c := LeafPaths(n)[i];
        assert c == [n] + d;
        assert Last(c) == Last(d);
        forall j | 0 <= j < |c| - 1
          ensures c[j].children.Present? && c[j + 1] in c[j].children.nodes
        {
          if j > 0 {
            assert c[j] == d[j - 1] && c[j + 1] == d[j];
          }
        }
      }
  }

  lemma {:induction false} LeafPathsOfStartInChildren(cs: seq<Node>)
    ensures forall i | 0 <= i < |LeafPathsOf(cs)| ::
      LeafPathsOf(cs)[i][0] in cs && IsRootToLeaf(LeafPathsOf(cs)[i][0], LeafPathsOf(cs)[i])
    decreases cs
  {
    if cs != [] {
      var front := cs[..|cs| - 1];
      var last := cs[|cs| - 1];
      LeafPathsOfStartInChildren(front);
      LeafPathsAreRootToLeaf(last);
      var a := LeafPathsOf(front);
      var b := LeafPaths(last);
      forall i | 0 <= i < |LeafPathsOf(cs)|
        ensures LeafPathsOf(cs)[i][0] in cs && IsRootToLeaf(LeafPathsOf(cs)[i][0], LeafPathsOf(cs)[i])
      {
        if i < |a| {
          assert LeafPathsOf(cs)[i] == a[i];
          assert a[i][0] in front;
        } else {
          assert LeafPathsOf(cs)[i] == b[i - |a|];
        }
      }
    }
  }

  lemma LastsAppend(a: seq<Chain>, b: seq<Chain>)
    ensures Lasts(a + b) == Lasts(a) + Lasts(b)
  {
  }

  lemma LastsExtend(n: Node, paths: seq<Chain>)
    ensures Lasts(Extend(n, paths)) == Lasts(paths)
  {
  }

  /** The paths end, in order, at exactly the leaves of the pre-order node
      sequence: one path per node without a `children` key. */
  lemma {:induction false} LeafPathsEndAtLeaves(n: Node)
    ensures Lasts(LeafPaths(n)) == LeavesOf(AllNodes(n))
    ensures |LeafPaths(n)| == LeafCount(n)
    decreases n
  {
    match n.children
    case Absent =>
      assert LeavesOf([n]) == LeavesOf([]) + [n];
    case Present(cs) =>
      LeafPathsOfEndAtLeaves(cs);
      LastsExtend(n, LeafPathsOf(cs));
      LeavesOfAppend([n], AllNodesOf(cs));
      assert LeavesOf([n]) == LeavesOf([]) + [];
  }

  lemma {:induction false} LeafPathsOfEndAtLeaves(cs: seq<Node>)
    ensures Lasts(LeafPathsOf(cs)) == LeavesOf(AllNodesOf(cs))
    decreases cs
  {
    if cs != [] {
      var front := cs[..|cs| - 1];
      var last := cs[|cs| - 1];
      LeafPathsOfEndAtLeaves(front);
      LeafPathsEndAtLeaves(last);
      LastsAppend(LeafPathsOf(front), LeafPaths(last));
      LeavesOfAppend(AllNodesOf(front), AllNodes(last));
    }
  }
}
