/** The complete binary tree that all three schemes keep in one array: the root is node 0 and the
    children of node n are 2n+1 and 2n+2. */
module HeapTree {
  import opened Bytes

  function NumLeaves(height: nat): (n: nat)
    ensures n >= 1
  {
    Pow2(height)
  }

  function NumNodes(height: nat): (n: nat)
    ensures n >= 1
  {
    Pow2(height + 1) - 1
  }

  /** x >> k */
  function Shr(x: nat, k: nat): nat
  {
    if k == 0 then x else Shr(x, k - 1) / 2
  }

  /** The node at `level` on the path from the root to `leaf`: the level's first node, plus the
      leading `level` digits of the leaf. */
  function NodeAt(height: nat, leaf: nat, level: nat): nat
    requires level <= height
  {
    Pow2(level) - 1 + Shr(leaf, height - level)
  }

  /** The path to a leaf, root first. */
  function PathNodes(height: nat, leaf: nat): (path: seq<nat>)
    ensures |path| == height + 1
    ensures forall l :: 0 <= l <= height ==> path[l] == NodeAt(height, leaf, l)
  {
    seq(height + 1, l requires 0 <= l <= height => NodeAt(height, leaf, l))
  }

  /** The nodes of a path, as a set. */
  function NodeSet(path: seq<nat>): (s: set<nat>)
  {
    set n | n in path
  }

  function Level(node: nat): nat
  {
    if node <= 0 then 0 else 1 + Level((node - 1) / 2)
  }

  predicate OnPath(height: nat, node: nat, leaf: nat)
  {
    Level(node) <= height && NodeAt(height, leaf, Level(node)) == node
  }

  lemma {:induction false} ShrBound(x: nat, height: nat, k: nat)
    requires x < Pow2(height) && k <= height
    ensures Shr(x, k) < Pow2(height - k)
  {
    if k > 0 { ShrBound(x, height, k - 1); }
  }

  lemma {:induction false} ShrAdds(x: nat, j: nat, k: nat)
    ensures Shr(Shr(x, j), k) == Shr(x, j + k)
  {
    if k > 0 { ShrAdds(x, j, k - 1); }
  }

  lemma {:induction false} Pow2Monotone(j: nat, k: nat)
    requires j <= k
    ensures Pow2(j) <= Pow2(k)
  {
    if j < k { Pow2Monotone(j, k - 1); }
  }

  lemma {:induction false} Pow2Adds(j: nat, k: nat)
    ensures Pow2(j + k) == Pow2(j) * Pow2(k)
  {
    if k > 0 { Pow2Adds(j, k - 1); }
  }

  lemma {:induction false} Pow2Small()
    ensures Pow2(1) == 2 && Pow2(8) == 256
  {
    BytePow2();
  }

  lemma {:induction false} Pow2Of64()
    ensures 2 * Pow2(63) == 0x1_0000_0000_0000_0000
  {
    hide Pow2;
    Pow2Small();
    Pow2Adds(8, 8);
    assert Pow2(16) == 0x1_0000;
    Pow2Adds(16, 16);
    assert Pow2(32) == 0x1_0000_0000;
    Pow2Adds(32, 32);
    Pow2Adds(63, 1);
  }

  lemma {:induction false} Pow2Reflects(j: nat, k: nat)
    requires Pow2(j) < Pow2(k)
    ensures j < k
  {
    if k <= j { Pow2Monotone(k, j); }
  }

  /** The level of a node is the one whose index range holds it. */
  lemma {:induction false} LevelRange(node: nat)
    ensures Pow2(Level(node)) - 1 <= node < Pow2(Level(node) + 1) - 1
  {
    if node > 0 {
      LevelRange((node - 1) / 2);
      assert Pow2(Level(node) + 1) == 2 * Pow2(Level(node));
    } else {
      assert Pow2(1) == 2;
    }
  }

  lemma {:induction false} LevelUnique(node: nat, level: nat)
    requires Pow2(level) - 1 <= node < Pow2(level + 1) - 1
    ensures Level(node) == level
  {
    LevelRange(node);
    Pow2Reflects(level, Level(node) + 1);
    Pow2Reflects(Level(node), level + 1);
  }

  lemma {:induction false} NodeAtRange(height: nat, leaf: nat, level: nat)
    requires leaf < NumLeaves(height) && level <= height
    ensures Pow2(level) - 1 <= NodeAt(height, leaf, level) < Pow2(level + 1) - 1
    ensures Level(NodeAt(height, leaf, level)) == level
    ensures NodeAt(height, leaf, level) < NumNodes(height)
    ensures OnPath(height, NodeAt(height, leaf, level), leaf)
  {
    ShrBound(leaf, height, height - level);
    LevelUnique(NodeAt(height, leaf, level), level);
    Pow2Monotone(level + 1, height + 1);
  }

  /** One step down a path, as the top-down loops take it. */
  lemma {:induction false} NodeAtStep(height: nat, leaf: nat, level: nat)
    requires level < height
    ensures NodeAt(height, leaf, level + 1)
         == 2 * NodeAt(height, leaf, level) + 1 + Shr(leaf, height - 1 - level) % 2
  {
  }

  /** One step up: only the root has no parent, and the parent is on the same path. */
  lemma {:induction false} ParentOnPath(height: nat, leaf: nat, level: nat)
    requires leaf < NumLeaves(height) && level <= height
    ensures NodeAt(height, leaf, level) == 0 <==> level == 0
    ensures level > 0 ==> (NodeAt(height, leaf, level) - 1) / 2 == NodeAt(height, leaf, level - 1)
  {
    NodeAtRange(height, leaf, level);
    if level == 0 {
      ShrZero(leaf, height);
    } else {
      NodeAtStep(height, leaf, level - 1);
    }
  }

  /** A node is in the list of a path exactly if its leading digits are the leaf's. */
  lemma {:induction false} PathMembers(height: nat, leaf: nat, node: nat)
    requires leaf < NumLeaves(height)
    ensures node in PathNodes(height, leaf) <==> OnPath(height, node, leaf)
    ensures node in PathNodes(height, leaf) ==> node < NumNodes(height)
  {
    if OnPath(height, node, leaf) {
      assert PathNodes(height, leaf)[Level(node)] == node;
    }
    if node in PathNodes(height, leaf) {
      var l :| 0 <= l <= height && PathNodes(height, leaf)[l] == node;
      NodeAtRange(height, leaf, l);
    }
  }

  lemma {:induction false} PathDistinct(height: nat, leaf: nat)
    requires leaf < NumLeaves(height)
    ensures forall i, j :: 0 <= i < j <= height ==> PathNodes(height, leaf)[i] != PathNodes(height, leaf)[j]
    ensures forall i :: 0 <= i <= height ==> PathNodes(height, leaf)[i] < NumNodes(height)
  {
    forall i | 0 <= i <= height
      ensures PathNodes(height, leaf)[i] < NumNodes(height)
    {
      NodeAtRange(height, leaf, i);
    }
    forall i, j | 0 <= i < j <= height
      ensures PathNodes(height, leaf)[i] != PathNodes(height, leaf)[j]
    {
      NodeAtRange(height, leaf, i);
      NodeAtRange(height, leaf, j);
    }
  }

  /** No node of the tree is below the leaves. */
  lemma {:induction false} LevelInTree(height: nat, node: nat)
    requires node < NumNodes(height)
    ensures Level(node) <= height
  {
    LevelRange(node);
    Pow2Reflects(Level(node), height + 1);
  }

  /** Two leaves agree after dropping i digits exactly when their paths share the node at height i
      above the leaves. */
  lemma {:induction false} SharedNode(height: nat, x: nat, y: nat, i: nat)
    requires x < NumLeaves(height) && y < NumLeaves(height) && i <= height
    ensures Shr(x, i) == Shr(y, i) <==> NodeAt(height, x, height - i) == NodeAt(height, y, height - i)
    ensures Shr(x, i) == Shr(y, i) <==> OnPath(height, NodeAt(height, y, height - i), x)
  {
    NodeAtRange(height, y, height - i);
  }

  /** Agreement is kept when more digits are dropped. */
  lemma {:induction false} ShrAgreeUp(x: nat, y: nat, i: nat, j: nat)
    requires i <= j && Shr(x, i) == Shr(y, i)
    ensures Shr(x, j) == Shr(y, j)
  {
    if i < j { ShrAgreeUp(x, y, i, j - 1); }
  }

  /** How many digits have to be dropped before two leaves agree: the height at which their paths
      meet. */
  function Meeting(x: nat, y: nat): nat
    decreases x + y
  {
    if x == y then 0 else 1 + Meeting(x / 2, y / 2)
  }

  lemma {:induction false} MeetingAgrees(x: nat, y: nat, i: nat)
    ensures Shr(x, i) == Shr(y, i) <==> i >= Meeting(x, y)
    decreases x + y
  {
    if x == y {
      ShrAgreeUp(x, y, 0, i);
    } else {
      assert Meeting(x, y) == 1 + Meeting(x / 2, y / 2);
      assert Shr(x, 0) == x && Shr(y, 0) == y && Shr(x, 1) == x / 2 && Shr(y, 1) == y / 2;
      hide Meeting, Shr;
      if i > 0 {
        MeetingAgrees(x / 2, y / 2, i - 1);
        ShrAdds(x, 1, i - 1);
        ShrAdds(y, 1, i - 1);
      }
    }
  }

  lemma {:induction false} MeetingBound(x: nat, y: nat, height: nat)
    requires x < NumLeaves(height) && y < NumLeaves(height)
    ensures Meeting(x, y) <= height
  {
    ShrZero(x, height);
    ShrZero(y, height);
    MeetingAgrees(x, y, height);
  }

  lemma {:induction false} ShrZero(x: nat, height: nat)
    requires x < Pow2(height)
    ensures Shr(x, height) == 0
  {
    ShrBound(x, height, height);
    assert Pow2(0) == 1;
  }

  /** Top-down walk to one level of a path. */
  method GetBucketIndex(height: nat, leaf: nat, level: nat) returns (node: nat)
    requires leaf < NumLeaves(height) && level <= height
    ensures node == NodeAt(height, leaf, level)
    ensures OnPath(height, node, leaf) && Level(node) == level
  {
    NodeAtRange(height, leaf, level);
    node := 0;
    ShrZero(leaf, height);
    for depth := 0 to level
      invariant node == NodeAt(height, leaf, depth)
    {
      NodeAtStep(height, leaf, depth);
      var bit := Shr(leaf, height - 1 - depth) % 2;
      node := 2 * node + 1 + bit;
    }
  }

  /** Top-down path, root first. */
  method GetPathTopDown(height: nat, leaf: nat) returns (path: seq<nat>)
    requires leaf < NumLeaves(height)
    ensures path == PathNodes(height, leaf)
  {
    var node := 0;
    path := [node];
    ShrZero(leaf, height);
    for level := 0 to height
      invariant |path| == level + 1
      invariant node == NodeAt(height, leaf, level)
      invariant forall l :: 0 <= l <= level ==> path[l] == NodeAt(height, leaf, l)
    {
      NodeAtStep(height, leaf, level);
      var bit := Shr(leaf, height - 1 - level) % 2;
      node := 2 * node + 1 + bit;
      path := path + [node];
    }
  }

  /** Bottom-up path, leaf first. */
  method GetPathBottomUp(height: nat, leaf: nat) returns (path: seq<nat>)
    requires leaf < NumLeaves(height)
    ensures |path| == height + 1
    ensures forall i :: 0 <= i <= height ==> path[i] == PathNodes(height, leaf)[height - i]
  {
    var current := Pow2(height) - 1 + leaf;
    path := [];
    ghost var i := 0;
    while true
      invariant 0 <= i <= height && |path| == i
      invariant current == NodeAt(height, leaf, height - i)
      invariant forall k :: 0 <= k < i ==> path[k] == PathNodes(height, leaf)[height - k]
      decreases height - i
    {
      path := path + [current];
      ParentOnPath(height, leaf, height - i);
      if current == 0 { break; }
      current := (current - 1) / 2;
      i := i + 1;
    }
  }

  method GetNodeLevel(node: nat) returns (level: nat)
    ensures level == Level(node)
    ensures Pow2(level) - 1 <= node < Pow2(level + 1) - 1
  {
    LevelRange(node);
    level := 0;
    var n := node;
    while n > 0
      invariant level + Level(n) == Level(node)
    {
      n := (n - 1) / 2;
      level := level + 1;
    }
  }

  /** The walk down to the node's own level ends in that node exactly when the path visits it. */
  method IsBucketOnLeafPath(height: nat, node: nat, leaf: nat) returns (on: bool)
    requires node < NumNodes(height) && leaf < NumLeaves(height)
    ensures on <==> OnPath(height, node, leaf)
    ensures on <==> node in PathNodes(height, leaf)
  {
    LevelInTree(height, node);
    PathMembers(height, leaf, node);
    var level := GetNodeLevel(node);
    var at := GetBucketIndex(height, leaf, level);
    on := at == node;
  }
}
