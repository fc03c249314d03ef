/** cpu-miner.c: the Merkle roots, computed in place, and the Stratum branch. */
module Merkle {
  import opened Words
  import opened Sha256Spec
  import opened Sha256Bytes

  type Node = s: seq<byte> | |s| == 32 witness seq(32, _ => 0)

  // ----- the tree -----

  /** The parent of two nodes. */
  function Parent(a: Node, b: Node): Node {
    Sha256d(a + b)
  }

  /** A level of even size: the last node is doubled if there is an odd number. */
  function Evened(s: seq<Node>): (r: seq<Node>)
    ensures |r| % 2 == 0 && |r| == |s| + |s| % 2
  {
    if |s| % 2 == 1 then s + [s[|s| - 1]] else s
  }

  function Parents(s: seq<Node>): (r: seq<Node>)
    requires |s| % 2 == 0
    ensures |r| == |s| / 2
  {
    seq(|s| / 2, i requires 0 <= i < |s| / 2 => Parent(s[2 * i], s[2 * i + 1]))
  }

  /** The level above. */
  function Level(s: seq<Node>): (r: seq<Node>)
    ensures |r| == (|s| + 1) / 2
  {
    Parents(Evened(s))
  }

  /** The Merkle root, level by level. */
  function Root(s: seq<Node>): Node
    requires s != []
    decreases |s|
  {
    if |s| == 1 then s[0] else Root(Level(s))
  }

  lemma RootAbove(s: seq<Node>, above: seq<Node>)
    requires |s| > 1 && Level(s) == above
    ensures Root(s) == Root(above)
  {
    hide Level;
  }

  lemma RootOfLeaf(a: Node)
    ensures Root([a]) == a
  {
  }

  lemma RootOfTwo(a: Node, b: Node)
    ensures Root([a, b]) == Sha256d(a + b)
  {
    hide Root, Sha256Spec.Sha256d;
    assert Level([a, b]) == [Parent(a, b)];
    RootAbove([a, b], [Parent(a, b)]);
    RootOfLeaf(Parent(a, b));
  }

  /** The trees of one, two and three leaves: a parent is the double hash of its left child and then its right
      child, and an odd leaf is its own neighbour. */
  lemma SmallTrees(a: Node, b: Node, c: Node)
    ensures Root([a]) == a && Root([a, b]) == Sha256d(a + b)
    ensures Root([a, b, c]) == Sha256d(Sha256d(a + b) + Sha256d(c + c))
  {
    hide Root, Sha256Spec.Sha256d;
    RootOfLeaf(a);
    RootOfTwo(a, b);
    assert Evened([a, b, c]) == [a, b, c, c];
    assert Level([a, b, c]) == [Parent(a, b), Parent(c, c)];
    RootAbove([a, b, c], [Parent(a, b), Parent(c, c)]);
    RootOfTwo(Parent(a, b), Parent(c, c));
  }

  /** The places at depth `d`: 2^d. */
  function Width(d: nat): (w: nat)
    ensures w > 0
  {
    if d == 0 then 1 else 2 * Width(d - 1)
  }

  /** The Merkle root, top down: the root of a tree of depth `d` over at most 2^d leaves. The right half is
      a copy of the left one if there are no leaves for it. */
  function TreeRoot(s: seq<Node>, d: nat): Node
    requires 1 <= |s| <= Width(d)
    decreases d
  {
    hide Parent;
    if d == 0 then s[0]
    else
      var h := Width(d - 1);
      var left := TreeRoot(if |s| <= h then s else s[..h], d - 1);
      var right := if |s| <= h then left else TreeRoot(s[h..], d - 1);
      Parent(left, right)
  }

  lemma EvenedSplits(s: seq<Node>, h: nat)
    requires h % 2 == 0 && h <= |s|
    ensures Evened(s)[..h] == Evened(s[..h]) && Evened(s)[h..] == Evened(s[h..])
  {
    hide Evened;
    EvenedIs(s);
    EvenedIs(s[..h]);
    EvenedIs(s[h..]);
    var last := if |s| % 2 == 1 then [s[|s| - 1]] else [];
    assert s == s[..h] + s[h..];
    assert Evened(s) == s[..h] + (s[h..] + last);
  }

  lemma EvenedIs(s: seq<Node>)
    ensures Evened(s) == s + if |s| % 2 == 1 then [s[|s| - 1]] else []
  {
  }

  lemma ParentsSplit(e: seq<Node>, k: nat)
    requires |e| % 2 == 0 && 2 * k <= |e|
    ensures Parents(e)[..k] == Parents(e[..2 * k]) && Parents(e)[k..] == Parents(e[2 * k..])
  {
    hide Parent;
    forall i | 0 <= i < |e| / 2 - k
      ensures Parents(e)[k..][i] == Parents(e[2 * k..])[i]
    {
      assert e[2 * (k + i)] == e[2 * k..][2 * i] && e[2 * (k + i) + 1] == e[2 * k..][2 * i + 1];
    }
  }

  lemma LevelSplits(s: seq<Node>, h: nat)
    requires h % 2 == 0 && h <= |s|
    ensures Level(s)[..h / 2] == Level(s[..h]) && Level(s)[h / 2..] == Level(s[h..])
  {
    hide Parent, Parents, Evened;
    EvenedSplits(s, h);
    ParentsSplit(Evened(s), h / 2);
  }

  lemma WidthDoubles(d: nat)
    ensures Width(d + 1) == 2 * Width(d) && Width(d) > 0
  {
  }

  lemma TreeLow(s: seq<Node>, d: nat)
    requires 1 <= |s| <= Width(d) < Width(d + 1)
    ensures TreeRoot(s, d + 1) == Parent(TreeRoot(s, d), TreeRoot(s, d))
  {
    hide Parent;
  }

  lemma TreeHigh(s: seq<Node>, d: nat)
    requires Width(d) < |s| <= Width(d + 1) == 2 * Width(d)
    ensures TreeRoot(s, d + 1) == Parent(TreeRoot(s[..Width(d)], d), TreeRoot(s[Width(d)..], d))
  {
    hide Parent;
  }

  /** One level less, over the level above, is the same tree. */
  lemma {:induction false} TreeByLevels(s: seq<Node>, d: nat)
    requires 1 <= |s| <= Width(d + 1)
    ensures |Level(s)| <= Width(d) && TreeRoot(s, d + 1) == TreeRoot(Level(s), d)
    decreases d
  {
    hide Parent, Level, Evened, Parents, TreeRoot, Width;
    WidthDoubles(d);
    if d == 0 {
      WidthOfRoot();
      LevelOfTwo(s);
      TreeOfTwo(s);
    } else {
      WidthDoubles(d - 1);
      var h := Width(d);
      if |s| <= h {
        TreeByLevels(s, d - 1);
        TreeLow(s, d);
        TreeLow(Level(s), d - 1);
      } else {
        LevelSplits(s, h);
        TreeByLevels(s[..h], d - 1);
        TreeByLevels(s[h..], d - 1);
        TreeHigh(s, d);
        TreeHigh(Level(s), d - 1);
      }
    }
  }

  lemma WidthOfRoot()
    ensures Width(0) == 1
  {
  }

  lemma TreeOfTwo(s: seq<Node>)
    requires 1 <= |s| <= 2 == Width(1) && Width(0) == 1
    ensures TreeRoot(s, 1) == Parent(s[0], s[|s| - 1])
    ensures TreeRoot([Parent(s[0], s[|s| - 1])], 0) == Parent(s[0], s[|s| - 1])
  {
    hide Parent, TreeRoot, Width;
    TreeOfOne([Parent(s[0], s[|s| - 1])]);
    if |s| == 1 {
      TreeLow(s, 0);
      TreeOfOne(s);
    } else {
      TreeHigh(s, 0);
      TreeOfOne(s[..1]);
      TreeOfOne(s[1..]);
    }
  }

  lemma LevelOfTwo(s: seq<Node>)
    requires 1 <= |s| <= 2
    ensures Level(s) == [Parent(s[0], s[|s| - 1])]
  {
    hide Parent;
  }

  /** The two definitions agree, at the least depth that holds all leaves. */
  lemma {:induction false} RootIsTreeRoot(s: seq<Node>, d: nat)
    requires 1 <= |s| <= Width(d) && (d > 0 ==> |s| > Width(d - 1))
    ensures Root(s) == TreeRoot(s, d)
    decreases d
  {
    hide Parent, Level, Width, TreeRoot;
    if d > 0 {
      WidthDoubles(d - 1);
      TreeByLevels(s, d - 1);
      if d > 1 {
        WidthDoubles(d - 2);
      }
      RootIsTreeRoot(Level(s), d - 1);
    } else {
      WidthOfRoot();
      TreeOfOne(s);
    }
  }

  lemma TreeOfOne(s: seq<Node>)
    requires |s| == 1
    ensures TreeRoot(s, 0) == s[0]
  {
  }

  // ----- the tree in a byte array -----

  /** Node `i` of a buffer of 32-byte nodes. */
  function NodeAt(b: seq<byte>, i: nat): Node
    requires 32 * i + 32 <= |b|
  {
    b[32 * i..32 * i + 32]
  }

  function Nodes(b: seq<byte>, n: nat): (s: seq<Node>)
    requires 32 * n <= |b|
    ensures |s| == n
  {
    seq(n, i requires 0 <= i < n => NodeAt(b, i))
  }

  /** memcpy of one node onto another. */
  method CopyNode(tree: array<byte>, to: nat, from: nat)
    requires 32 * to + 32 <= tree.Length && 32 * from + 32 <= tree.Length && to != from
    modifies tree
    ensures NodeAt(tree[..], to) == NodeAt(old(tree[..]), from)
    ensures tree[..32 * to] == old(tree[..32 * to])
  {
    ghost var b := tree[..];
    for k := 0 to 32
      invariant tree[32 * to..32 * to + k] == b[32 * from..32 * from + k]
      invariant tree[..32 * to] == b[..32 * to]
      invariant tree[32 * from..32 * from + 32] == b[32 * from..32 * from + 32]
    {
      ghost var done := tree[32 * to..32 * to + k];
      ghost var source := tree[32 * from..32 * from + 32];
      assert tree[32 * from + k] == source[k];
      tree[32 * to + k] := tree[32 * from + k];
      assert tree[32 * to..32 * to + k + 1] == done + [source[k]];
      assert tree[32 * from..32 * from + 32] == source;
    }
  }

  lemma TwoNodes(b: seq<byte>, i: nat)
    requires 64 * i + 64 <= |b|
    ensures b[64 * i..64 * i + 64] == NodeAt(b, 2 * i) + NodeAt(b, 2 * i + 1)
  {
  }

  lemma NodeOfPrefix(s: seq<byte>, t: seq<byte>, j: nat, n: nat)
    requires 32 * j + 32 <= n <= |s| && n <= |t| && s[..n] == t[..n]
    ensures NodeAt(s, j) == NodeAt(t, j)
  {
    assert s[32 * j..32 * j + 32] == s[..n][32 * j..32 * j + 32];
    assert t[32 * j..32 * j + 32] == t[..n][32 * j..32 * j + 32];
  }

  /** Hashes one pair into the place of its index. */
  method HashPair(tree: array<byte>, i: nat)
    requires 64 * i + 64 <= tree.Length
    modifies tree
    ensures NodeAt(tree[..], i) == Parent(NodeAt(old(tree[..]), 2 * i), NodeAt(old(tree[..]), 2 * i + 1))
    ensures tree[..32 * i] == old(tree[..32 * i]) && tree[32 * (i + 1)..] == old(tree[32 * (i + 1)..])
  {
    hide Sha256Spec.Sha256d, NodeAt;
    TwoNodes(tree[..], i);
    assert tree[..][64 * i..64 * i + 64] == tree[64 * i..64 * i + 64];
    Sha256dBuffer(tree, 32 * i, tree, 64 * i, 64);
    NodeIs(tree[..], i);
    assert tree[..][32 * i..32 * i + 32] == tree[32 * i..32 * i + 32];
  }

  /** Hashes `n` pairs, each into the place of its index: the reads stay ahead of the writes. */
  method HashPairs(tree: array<byte>, n: nat)
    requires 64 * n <= tree.Length
    modifies tree
    ensures Nodes(tree[..], n) == Parents(Nodes(old(tree[..]), 2 * n))
  {
    hide Sha256Spec.Sha256d, NodeAt, Parent;
    ghost var b := tree[..];
    for i := 0 to n
      invariant forall j | 0 <= j < i :: NodeAt(tree[..], j) == Parent(NodeAt(b, 2 * j), NodeAt(b, 2 * j + 1))
      invariant tree[32 * i..] == b[32 * i..]
    {
      ghost var t := tree[..];
      HashPair(tree, i);
      PairDone(b, t, tree[..], i);
    }
  }

  /** What one turn of the loop keeps, `t` and `u` being the bytes before and after it. */
  lemma PairDone(b: seq<byte>, t: seq<byte>, u: seq<byte>, i: nat)
    requires 64 * i + 64 <= |b| == |t| == |u|
    requires forall j | 0 <= j < i :: NodeAt(t, j) == Parent(NodeAt(b, 2 * j), NodeAt(b, 2 * j + 1))
    requires t[32 * i..] == b[32 * i..]
    requires NodeAt(u, i) == Parent(NodeAt(t, 2 * i), NodeAt(t, 2 * i + 1))
    requires u[..32 * i] == t[..32 * i] && u[32 * (i + 1)..] == t[32 * (i + 1)..]
    ensures forall j | 0 <= j < i + 1 :: NodeAt(u, j) == Parent(NodeAt(b, 2 * j), NodeAt(b, 2 * j + 1))
    ensures u[32 * (i + 1)..] == b[32 * (i + 1)..]
  {
    hide Sha256Spec.Sha256d, NodeAt, Parent;
    NodeOfSuffix(t, b, 2 * i, 32 * i);
    NodeOfSuffix(t, b, 2 * i + 1, 32 * i);
    forall j | 0 <= j < i ensures NodeAt(u, j) == NodeAt(t, j) {
      NodeOfPrefix(u, t, j, 32 * i);
    }
    assert u[32 * (i + 1)..] == t[32 * i..][32..] == b[32 * i..][32..];
  }

  lemma NodeOfSuffix(s: seq<byte>, t: seq<byte>, j: nat, n: nat)
    requires n <= 32 * j && 32 * j + 32 <= |s| == |t| && s[n..] == t[n..]
    ensures NodeAt(s, j) == NodeAt(t, j)
  {
    assert s[32 * j..32 * j + 32] == s[n..][32 * j - n..32 * j + 32 - n];
    assert t[32 * j..32 * j + 32] == t[n..][32 * j - n..32 * j + 32 - n];
  }

  lemma NodeIs(b: seq<byte>, i: nat)
    requires 32 * i + 32 <= |b|
    ensures NodeAt(b, i) == b[32 * i..32 * i + 32]
  {
  }

  lemma EvenedNodes(b: seq<byte>, t: seq<byte>, n: nat)
    requires n > 0 && n % 2 == 1 && 32 * (n + 1) <= |t| == |b|
    requires t[..32 * n] == b[..32 * n] && NodeAt(t, n) == NodeAt(b, n - 1)
    ensures Nodes(t, n + 1) == Evened(Nodes(b, n))
  {
    hide NodeAt;
    forall i | 0 <= i < n ensures NodeAt(t, i) == NodeAt(b, i) {
      NodeOfPrefix(t, b, i, 32 * n);
    }
  }

  lemma RootStep(s: seq<Node>)
    requires |s| > 1
    ensures Root(s) == Root(Parents(Evened(s)))
  {
  }

  lemma RootOfOne(b: seq<byte>)
    requires 32 <= |b|
    ensures Root(Nodes(b, 1)) == NodeAt(b, 0)
  {
  }

  /** The loop over the transaction hashes. The buffer has room for an even number of nodes. */
  method TransactionRoot(tree: array<byte>, count: nat)
    requires count > 0 && 32 * (count + count % 2) <= tree.Length
    modifies tree
    ensures NodeAt(tree[..], 0) == Root(Nodes(old(tree[..]), count))
  {
    hide NodeAt, Nodes, Root, Parents, Evened;
    var n := count;
    while n > 1
      invariant n > 0 && 32 * (n + n % 2) <= tree.Length
      invariant Root(Nodes(tree[..], n)) == Root(Nodes(old(tree[..]), count))
      decreases n
    {
      ghost var b := tree[..];
      RootStep(Nodes(b, n));
      EvenNodes(b, n);
      if n % 2 == 1 {
        CopyNode(tree, n, n - 1);
        assert tree[..][..32 * n] == b[..32 * n];
        EvenedNodes(b, tree[..], n);
        n := n + 1;
      }
      n := n / 2;
      HashPairs(tree, n);
    }
    RootOfOne(tree[..]);
  }

  lemma EvenNodes(b: seq<byte>, n: nat)
    requires 32 * n <= |b|
    ensures n % 2 == 0 ==> Evened(Nodes(b, n)) == Nodes(b, n)
  {
  }

  /** The loop over the witness transaction hashes. The buffer has room for one node more. */
  method WitnessRoot(wtree: array<byte>, count: nat)
    requires count > 0 && 32 * (count + 1) <= wtree.Length
    modifies wtree
    ensures NodeAt(wtree[..], 0) == Root(Nodes(old(wtree[..]), count))
  {
    hide NodeAt, Nodes, Root, Parents, Evened;
    var n := count;
    while n > 1
      invariant n > 0 && 32 * (n + 1) <= wtree.Length
      invariant Root(Nodes(wtree[..], n)) == Root(Nodes(old(wtree[..]), count))
      decreases n
    {
      ghost var b := wtree[..];
      RootStep(Nodes(b, n));
      EvenNodes(b, n);
      if n % 2 == 1 {
        CopyNode(wtree, n, n - 1);
        assert wtree[..][..32 * n] == b[..32 * n];
        EvenedNodes(b, wtree[..], n);
      }
      n := (n + 1) / 2;
      HashPairs(wtree, n);
    }
    RootOfOne(wtree[..]);
  }

  // ----- the Stratum branch -----

  /** The siblings of leaf 0 and its ancestors. */
  function Branch(s: seq<Node>): seq<Node>
    requires s != []
    decreases |s|
  {
    if |s| == 1 then [] else [Evened(s)[1]] + Branch(Level(s))
  }

  /** Hashing a leaf up along a branch. */
  function FoldBranch(x: Node, branch: seq<Node>): Node
    decreases |branch|
  {
    if branch == [] then x else FoldBranch(Parent(x, branch[0]), branch[1..])
  }

  /** The leaf and what is hashed from it stand on the left. */
  lemma ShortBranches(x: Node, a: Node, b: Node)
    ensures FoldBranch(x, []) == x && FoldBranch(x, [a]) == Sha256d(x + a)
    ensures FoldBranch(x, [a, b]) == Sha256d(Sha256d(x + a) + b)
  {
    hide Sha256Spec.Sha256d;
    assert [a, b][1..] == [b] && [a][1..] == [] && [b][1..] == [];
    assert FoldBranch(Parent(x, a), [b]) == FoldBranch(Parent(Parent(x, a), b), []);
  }

  lemma {:induction false} BranchGivesRoot(s: seq<Node>)
    requires s != []
    ensures FoldBranch(s[0], Branch(s)) == Root(s)
    decreases |s|
  {
    hide Parent, Level, Evened;
    if |s| > 1 {
      BranchGivesRoot(Level(s));
      LevelFirst(s);
      assert Branch(s)[1..] == Branch(Level(s));
    }
  }

  lemma LevelFirst(s: seq<Node>)
    requires |s| > 1
    ensures Level(s)[0] == Parent(s[0], Evened(s)[1])
  {
    hide Parent;
  }

  lemma {:induction false} BranchIgnoresFirst(s: seq<Node>, t: seq<Node>)
    requires |s| == |t| > 0 && forall i | 1 <= i < |s| :: s[i] == t[i]
    ensures Branch(s) == Branch(t)
    decreases |s|
  {
    hide Parent;
    if |s| > 1 {
      BranchIgnoresFirst(Level(s), Level(t));
    }
  }

  /** Whatever coinbase hash `x` is put at leaf 0, folding it with the branch gives the Merkle root of the
      whole list of leaves. */
  lemma StratumRoot(s: seq<Node>, x: Node)
    requires s != []
    ensures FoldBranch(x, Branch(s)) == Root(s[0 := x])
  {
    BranchIgnoresFirst(s, s[0 := x]);
    BranchGivesRoot(s[0 := x]);
  }

  /** The Merkle part of stratum_gen_work: one 64-byte buffer, hashed in place. */
  method GenerateRoot(root: array<byte>, coinbase: array<byte>, size: nat, branch: seq<Node>)
    requires root.Length == 64 && size <= coinbase.Length && size < 0x1000_0000 && root != coinbase
    modifies root
    ensures root[..32] == FoldBranch(Sha256d(coinbase[..size]), branch)
  {
    hide Sha256Spec.Sha256d;
    Sha256dBuffer(root, 0, coinbase, 0, size);
    assert coinbase[0..0 + size] == coinbase[..size];
    ghost var leaf: Node := root[0..32];
    assert root[..32] == leaf && branch[0..] == branch;
    for i := 0 to |branch|
      modifies root
      invariant FoldBranch(root[..32], branch[i..]) == FoldBranch(leaf, branch)
    {
      ghost var x: Node := root[..32];
      for k := 0 to 32
        modifies root
        invariant root[..32] == x && root[32..32 + k] == branch[i][..k]
      {
        ghost var done := root[32..32 + k];
        root[32 + k] := branch[i][k];
        assert root[32..32 + k + 1] == done + [branch[i][k]];
      }
      assert root[0..64] == x + branch[i];
      Sha256dBuffer(root, 0, root, 0, 64);
      assert root[..32] == root[0..32] == Parent(x, branch[i]);
      assert branch[i..][1..] == branch[i + 1..];
    }
  }
}
