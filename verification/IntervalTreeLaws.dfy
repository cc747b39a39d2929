/**
 * What the labels and links of the interval tree come to, said with the textbook traversals: the in-order sequence,
 * the preorder in which a query answers, and the height that the colours are there to bound.
 */
module IntervalTreeLaws {

  import opened IntervalTrees
  import Words

  // ------------------------------------------------------------ traversals by the links alone

  ghost predicate InTree(t: IntervalTree, n: Node)
    reads t`nodes
  {
    n in t.nodes || n == t.nil
  }

  ghost function Size(t: IntervalTree, n: Node): int
    reads n`lo, n`hi
  {
    if n == t.nil then 0 else n.hi - n.lo
  }

  lemma Children(t: IntervalTree, n: Node)
    requires t.Shape() && n in t.nodes
    ensures InTree(t, n.left) && InTree(t, n.right)
    ensures 0 <= Size(t, n.left) == n.pos - n.lo && 0 <= Size(t, n.right) == n.hi - n.pos - 1
    ensures n.left != t.nil ==> n.left.lo == n.lo && n.left.hi == n.pos && n.left != t.root
    ensures n.right != t.nil ==> n.right.lo == n.pos + 1 && n.right.hi == n.hi && n.right != t.root
    ensures 0 <= n.lo <= n.pos < n.hi <= |t.order| && t.order[n.pos] == n
  {
    assert t.ShapeAt(n) && t.ShapeAt(t.root);
  }

  ghost function Inorder(t: IntervalTree, n: Node): seq<Node>
    requires t.Shape() && InTree(t, n)
    reads t, t.nodes, t.root
    decreases Size(t, n)
  {
    if n == t.nil then []
    else
      Children(t, n);
      Inorder(t, n.left) + [n] + Inorder(t, n.right)
  }

  ghost function Preorder(t: IntervalTree, n: Node): seq<Node>
    requires t.Shape() && InTree(t, n)
    reads t, t.nodes, t.root
    decreases Size(t, n)
  {
    if n == t.nil then []
    else
      Children(t, n);
      [n] + Preorder(t, n.left) + Preorder(t, n.right)
  }

  ghost function Height(t: IntervalTree, n: Node): nat
    requires t.Shape() && InTree(t, n)
    reads t, t.nodes, t.root
    decreases Size(t, n)
  {
    if n == t.nil then 0
    else
      Children(t, n);
      var l, r := Height(t, n.left), Height(t, n.right);
      1 + if l < r then r else l
  }

  // ------------------------------------------------------------ order

  lemma {:induction false} InorderIsOrder(t: IntervalTree, n: Node)
    requires t.Shape() && InTree(t, n)
    ensures n != t.nil ==> 0 <= n.lo <= n.hi <= |t.order| && Inorder(t, n) == t.order[n.lo..n.hi]
    decreases Size(t, n)
  {
    if n != t.nil {
      Children(t, n);
      hide IntervalTree.Shape;
      InorderIsOrder(t, n.left);
      InorderIsOrder(t, n.right);
      assert Inorder(t, n.left) == t.order[n.lo..n.pos] && Inorder(t, n.right) == t.order[n.pos + 1..n.hi];
      Slices(t.order, n.lo, n.pos, n.hi);
    }
  }

  lemma Slices(s: seq<Node>, i: int, j: int, k: int)
    requires 0 <= i <= j < k <= |s|
    ensures s[i..k] == s[i..j] + [s[j]] + s[j + 1..k]
  {
  }

  /** The number of nodes, with the root sentinel. */
  lemma OrderCounts(t: IntervalTree)
    requires t.Shape()
    ensures |t.nodes| == |t.order|
  {
    forall n | n in t.nodes ensures n in t.order { Children(t, n); }
    Counted(t.order, t.nodes);
  }

  lemma {:induction false} Counted(s: seq<Node>, nodes: set<Node>)
    requires (forall i, j :: 0 <= i < j < |s| ==> s[i] != s[j]) && forall n :: n in nodes <==> n in s
    ensures |nodes| == |s|
  {
    if s != [] {
      var rest, last := s[..|s| - 1], s[|s| - 1];
      forall n ensures n in nodes - {last} <==> n in rest { assert s == rest + [last]; }
      Counted(rest, nodes - {last});
      assert last in nodes && nodes == nodes - {last} + {last};
    } else {
      assert nodes == {};
    }
  }

  /** Read in order, the tree gives every node once, with ascending keys. */
  lemma InorderAscends(t: IntervalTree)
    requires t.Valid()
    ensures InTree(t, t.root.left)
    ensures var s := Inorder(t, t.root.left);
      && (forall n :: n in s <==> n in t.nodes && n != t.root) && (forall i, j :: 0 <= i < j < |s| ==> s[i] != s[j])
      && (forall i, j :: 0 <= i < j < |s| ==> s[i].key <= s[j].key)
  {
    hide IntervalTree.MaxHighs, IntervalTree.Blacks, IntervalTree.Reds, IntervalTree.TopBlack, IntervalTree.SentinelFields;
    Children(t, t.root);
    InorderIsOrder(t, t.root.left);
    var s := Inorder(t, t.root.left);
    assert s == t.order[..|t.order| - 1];
    forall n ensures n in s <==> n in t.nodes && n != t.root {
      if n in t.nodes && n != t.root {
        Children(t, n);
        assert t.order[n.pos] == n && t.order[|t.order| - 1] == t.root;
        assert s[n.pos] == n;
      }
    }
  }

  // ------------------------------------------------------------ preorder

  ghost predicate Ascending(t: IntervalTree, s: seq<Node>)
    reads s`lo, s`hi
  {
    forall i, j :: 0 <= i < j < |s| ==> t.Before(s[i], s[j])
  }

  ghost predicate Below(n: Node, m: Node)
    reads n`lo, n`hi, m`lo, m`pos, m`hi
  {
    n.lo <= m.lo <= m.pos < m.hi <= n.hi
  }

  /** The preorder of a subtree holds exactly its nodes, and each before those that begin later or are contained in it. */
  lemma {:induction false} PreorderAscends(t: IntervalTree, n: Node)
    requires t.Shape() && InTree(t, n)
    ensures Ascending(t, Preorder(t, n))
    ensures forall m :: m in Preorder(t, n) ==> m in t.nodes && n != t.nil && Below(n, m)
    ensures n != t.nil ==> forall m :: m in t.nodes && n.lo <= m.pos < n.hi ==> m in Preorder(t, n)
    decreases Size(t, n)
  {
    if n != t.nil {
      Children(t, n);
      PreorderAscends(t, n.left);
      PreorderAscends(t, n.right);
      hide IntervalTree.Shape, Ascending;
      forall m | m in t.nodes && n.lo <= m.pos < n.hi ensures m in Preorder(t, n) { Children(t, m); }
      Joined(t, n, Preorder(t, n.left), Preorder(t, n.right));
    }
  }

  lemma Joined(t: IntervalTree, n: Node, l: seq<Node>, r: seq<Node>)
    requires Ascending(t, l) && Ascending(t, r) && n.lo <= n.pos < n.hi
    requires forall m :: m in l ==> n.lo <= m.lo < m.hi <= n.pos
    requires forall m :: m in r ==> n.pos < m.lo && m.hi <= n.hi
    ensures Ascending(t, [n] + l + r)
  {
  }

  /** Two sequences with the same members that both ascend are the same. */
  lemma {:induction false} AscendingIsUnique(t: IntervalTree, a: seq<Node>, b: seq<Node>)
    requires Ascending(t, a) && Ascending(t, b) && forall n :: n in a <==> n in b
    ensures a == b
  {
    assert b != [] ==> b[0] in a;
    if a != [] {
      assert a[0] in b;
      assert b[0] in a;
      var k :| 0 <= k < |b| && b[k] == a[0];
      var j :| 0 <= j < |a| && a[j] == b[0];
      assert k == 0;
      forall n ensures n in a[1..] <==> n in b[1..] {
        NotAgain(t, a);
        NotAgain(t, b);
      }
      AscendingIsUnique(t, a[1..], b[1..]);
      assert a == [a[0]] + a[1..] && b == [b[0]] + b[1..];
    }
  }

  lemma NotAgain(t: IntervalTree, s: seq<Node>)
    requires s != [] && Ascending(t, s)
    ensures s[0] !in s[1..] && forall n :: n in s <==> n == s[0] || n in s[1..]
    ensures Ascending(t, s[1..]) && forall m :: m in s[1..] ==> t.Before(s[0], m)
  {
    assert s == [s[0]] + s[1..];
    forall m | m in s[1..] ensures t.Before(s[0], m) {
      var j :| 0 <= j < |s[1..]| && s[1..][j] == m;
      assert s[j + 1] == m;
    }
  }

  /** The nodes that overlap a range. */
  ghost function Hits(t: IntervalTree, s: seq<Node>, low: int, high: int): seq<Node>
    reads s`key, s`high
  {
    if s == [] then [] else (if t.Hit(low, high, s[0]) then [s[0]] else []) + Hits(t, s[1..], low, high)
  }

  lemma {:induction false} HitsAscend(t: IntervalTree, s: seq<Node>, low: int, high: int)
    requires Ascending(t, s)
    ensures Ascending(t, Hits(t, s, low, high))
    ensures forall n :: n in Hits(t, s, low, high) <==> n in s && t.Hit(low, high, n)
  {
    if s != [] {
      HitsAscend(t, s[1..], low, high);
      NotAgain(t, s);
      hide IntervalTree.Hit, IntervalTree.Before, Ascending;
      var rest := Hits(t, s[1..], low, high);
      assert Ascending(t, rest);
      forall m | m in rest ensures t.Before(s[0], m) { assert m in s[1..]; }
      FirstAscends(t, s[0], rest);
      assert Ascending(t, [s[0]] + rest);
      assert Hits(t, s, low, high) == if t.Hit(low, high, s[0]) then [s[0]] + rest else rest;
    }
  }

  lemma FirstAscends(t: IntervalTree, n: Node, s: seq<Node>)
    ensures Ascending(t, s) && (forall m :: m in s ==> t.Before(n, m)) ==> Ascending(t, [n] + s)
  {
  }

  /** What `IntervalTree.Query` promises leaves one answer only: the preorder of the tree without the nodes that do not overlap. */
  lemma QueryIsFilteredPreorder(t: IntervalTree, found: seq<Node>, low: int, high: int)
    requires t.Valid() && t.InPreorder(found)
    requires forall n {:trigger n in found} :: n in found <==> n in t.nodes && n != t.root && t.Hit(low, high, n)
    ensures InTree(t, t.root.left)
    ensures found == Hits(t, Preorder(t, t.root.left), low, high)
  {
    hide IntervalTree.MaxHighs, IntervalTree.Blacks, IntervalTree.Reds, IntervalTree.TopBlack, IntervalTree.SentinelFields, IntervalTree.Keys;
    Children(t, t.root);
    var s := Preorder(t, t.root.left);
    PreorderAscends(t, t.root.left);
    forall n ensures n in s <==> n in t.nodes && n != t.root {
      if n in t.nodes { Children(t, n); }
    }
    HitsAscend(t, s, low, high);
    AscendingIsUnique(t, found, Hits(t, s, low, high));
  }

  // ------------------------------------------------------------ balance

  /** A subtree with a black height has at least so many nodes. */
  lemma {:induction false} BlacksFillTree(t: IntervalTree, n: Node)
    requires t.Shape() && t.Blacks(t.nil, true) && t.nil.bh == 0 && InTree(t, n) && n != t.root
    ensures 0 <= n.bh && Words.Pow2(n.bh) <= Size(t, n) + 1
    decreases Size(t, n)
  {
    if n != t.nil {
      Children(t, n);
      assert t.BlackAt(n, t.nil, true);
      BlacksFillTree(t, n.left);
      BlacksFillTree(t, n.right);
      Words.Pow2Next(n.left.bh);
    }
  }

  /** At most every other node of a way down is red. */
  lemma {:induction false} HeightByBlacks(t: IntervalTree, n: Node)
    requires t.Shape() && t.Blacks(t.nil, true) && t.Reds(t.nil, t.nil) && t.nil.bh == 0 && !t.nil.red && InTree(t, n) && n != t.root
    ensures Height(t, n) <= 2 * n.bh + (if n.red then 1 else 0)
    decreases Size(t, n)
  {
    if n != t.nil {
      Children(t, n);
      assert t.BlackAt(n, t.nil, true) && t.RedAt(n, t.nil, t.nil);
      HeightByBlacks(t, n.left);
      HeightByBlacks(t, n.right);
    }
  }

  /** The tree is balanced: a height of h takes at least 2^(h/2) - 1 nodes, so that it is at most twice the logarithm of their number. */
  lemma HeightIsLogarithmic(t: IntervalTree)
    requires t.Valid()
    ensures InTree(t, t.root.left)
    ensures Words.Pow2((Height(t, t.root.left) + 1) / 2) <= |t.nodes|
  {
    OrderCounts(t);
    hide IntervalTree.MaxHighs, IntervalTree.Keys;
    Children(t, t.root);
    var top := t.root.left;
    BlacksFillTree(t, top);
    HeightByBlacks(t, top);
    hide IntervalTree.Blacks, IntervalTree.Reds, IntervalTree.Shape;
    Words.Pow2Grows((Height(t, top) + 1) / 2, top.bh);
  }
}
