/**
 * The interval tree of inet/common/IntervalTree: a red-black tree of heap nodes with
 * parent pointers, a `nil` sentinel for every missing link and a `root` sentinel whose
 * left child is the top of the tree.
 *
 * Every node carries ghost labels: `pos` is its index in the in-order sequence `order`
 * and [lo, hi) is the range of indices its subtree covers.  With them the shape of the
 * whole tree is a conjunction of facts about one node and its neighbours, so a rotation
 * or a splice has to be checked for one arbitrary node only.  The root sentinel is the
 * last element of `order`.
 */
module IntervalTrees {

  const MAX_TIME: int := 0x7fff_ffff_ffff_ffff

  function Max(a: int, b: int): int { if a < b then b else a }

  /** Whether [a1, a2] and [b1, b2] overlap. */
  predicate Overlap(a1: int, a2: int, b1: int, b2: int)
  {
    if a1 <= b1 then b1 <= a2 else a1 <= b2
  }

  predicate Within(t: int, a: int, b: int) { a <= t <= b }

  /** Overlapping means sharing a point, ends included. */
  lemma OverlapIsSharedPoint(a1: int, a2: int, b1: int, b2: int)
    requires a1 <= a2 && b1 <= b2
    ensures Overlap(a1, a2, b1, b2) <==> exists t :: Within(t, a1, a2) && Within(t, b1, b2)
  {
    if Overlap(a1, a2, b1, b2) {
      var t := Max(a1, b1);
      assert Within(t, a1, a2) && Within(t, b1, b2);
    }
  }

  /** A closed interval [low, high]; two intervals are the same only if they are the same object. */
  class Interval {
    const low: int
    const high: int
    const value: int

    constructor (low: int, high: int, value: int)
      ensures this.low == low && this.high == high && this.value == value
    {
      this.low, this.high, this.value := low, high, value;
    }
  }

  class Node {
    var stored: Interval?
    var key: int
    var high: int
    var maxHigh: int
    var red: bool
    var left: Node
    var right: Node
    var parent: Node
    ghost var lo: int
    ghost var pos: int
    ghost var hi: int
    ghost var bh: int   // number of black nodes on every downward path of the subtree

    constructor Nil()
      ensures left == this && right == this && parent == this && !red && bh == 0
      ensures key == high == maxHigh == -MAX_TIME && stored == null
    {
      stored := null;
      key, high, maxHigh := -MAX_TIME, -MAX_TIME, -MAX_TIME;
      red := false;
      left, right, parent := this, this, this;
      bh := 0;
    }

    constructor Root(nil: Node)
      ensures left == right == parent == nil && !red && lo == pos == 0 && hi == 1
      ensures key == high == maxHigh == MAX_TIME && stored == null
    {
      stored := null;
      key, high, maxHigh := MAX_TIME, MAX_TIME, MAX_TIME;
      red := false;
      left, right, parent := nil, nil, nil;
      lo, pos, hi := 0, 0, 1;
    }

    constructor Of(interval: Interval, nil: Node)
      ensures stored == interval && key == interval.low && high == maxHigh == interval.high
      ensures left == right == parent == nil && !red && bh == 0
    {
      stored := interval;
      key, high, maxHigh := interval.low, interval.high, interval.high;
      red := false;
      left, right, parent := nil, nil, nil;
      bh := 0;
    }
  }

  /** Two-state lemmas about a deletion take their nodes in one argument of this type. */
  datatype Move = Move(node: Node, child: Node, short: Node, black: bool, atLeft: bool)

  /** An entry of the explicit stack of `Query`. */
  datatype RecursionNode = RecursionNode(startNode: Node?, parentIndex: nat, tryRightBranch: bool)

  class IntervalTree {
    const root: Node
    const nil: Node
    ghost var nodes: set<Node>    // every node of the tree and the root sentinel
    ghost var order: seq<Node>    // the same nodes in in-order, the root sentinel last
    var stack: seq<RecursionNode>
    var stackTop: nat
    var currentParent: nat

    // ------------------------------------------------------------ invariants

    ghost predicate Slot(c: Node, p: Node, lo: int, hi: int)
      reads this`nodes, nodes`parent, nodes`lo, nodes`hi
    {
      if lo == hi then c == nil else c in nodes && c.parent == p && c.lo == lo && c.hi == hi
    }

    ghost predicate RangeAt(n: Node)
      reads this`order, n`lo, n`pos, n`hi
    {
      0 <= n.lo <= n.pos < n.hi <= |order| && order[n.pos] == n
    }

    ghost predicate LeftAt(n: Node)
      reads this`nodes, nodes`parent, nodes`lo, nodes`hi, n`left, n`lo, n`pos
    {
      Slot(n.left, n, n.lo, n.pos)
    }

    ghost predicate RightAt(n: Node)
      reads this`nodes, nodes`parent, nodes`lo, nodes`hi, n`right, n`pos, n`hi
    {
      Slot(n.right, n, n.pos + 1, n.hi)
    }

    ghost predicate UpAt(n: Node)
      reads this`nodes, nodes`left, nodes`right, n`parent
    {
      n != root ==> n.parent in nodes && (n.parent.left == n || n.parent.right == n)
    }

    ghost predicate ShapeAt(n: Node)
      reads this`nodes, this`order, nodes`left, nodes`right, nodes`parent, nodes`lo, nodes`pos, nodes`hi,
            n`left, n`right, n`parent, n`lo, n`pos, n`hi
    {
      RangeAt(n) && LeftAt(n) && RightAt(n) && UpAt(n)
    }

    ghost predicate Sentinels()
      reads this`nodes, this`order, root`lo, root`pos, root`hi
    {
      && nil !in nodes && root in nodes
      && root.lo == 0 && root.pos == |order| - 1 && root.hi == |order|
    }

    /** The links form one binary tree whose in-order sequence is `order`. */
    ghost predicate Shape()
      reads this`nodes, this`order, nodes`left, nodes`right, nodes`parent, nodes`lo, nodes`pos, nodes`hi, root`lo, root`pos, root`hi
    {
      && Sentinels()
      && (forall i | 0 <= i < |order| :: order[i] in nodes && order[i].pos == i)
      && (forall n {:trigger ShapeAt(n)} | n in nodes :: ShapeAt(n))
    }

    ghost predicate Kids(n: Node)
      reads this`nodes, n`left, n`right
    {
      (n.left in nodes || n.left == nil) && (n.right in nodes || n.right == nil)
    }

    ghost predicate MaxAt(n: Node)
      reads this`nodes, nodes`maxHigh, nil`maxHigh, n`left, n`right, n`high, n`maxHigh
    {
      Kids(n) && n.maxHigh == Max(n.high, Max(n.left.maxHigh, n.right.maxHigh))
    }

    ghost predicate MaxHighs()
      reads this`nodes, nodes`left, nodes`right, nodes`high, nodes`maxHigh, nil`maxHigh
    {
      forall n {:trigger MaxAt(n)} | n in nodes && n != root :: MaxAt(n)
    }

    /** Black heights agree; the `side` child of `q` counts one black node it does not have. */
    ghost predicate BlackAt(n: Node, q: Node, atLeft: bool)
      reads this`nodes, nodes`bh, nil`bh, n`left, n`right, n`red, n`bh
    {
      && Kids(n) && 0 <= n.left.bh && 0 <= n.right.bh
      && n.left.bh + (if n == q && atLeft then 1 else 0) == n.right.bh + (if n == q && !atLeft then 1 else 0)
      && n.bh == n.left.bh + (if n == q && atLeft then 1 else 0) + (if n.red then 0 else 1)
    }

    ghost predicate Blacks(q: Node, atLeft: bool)
      reads this`nodes, nodes`left, nodes`right, nodes`red, nodes`bh, nil`bh
    {
      forall n {:trigger BlackAt(n, q, atLeft)} | n in nodes && n != root :: BlackAt(n, q, atLeft)
    }

    /** No red node has a red child, except that `m` may and that `c` may be such a child. */
    ghost predicate RedAt(n: Node, m: Node, c: Node)
      reads this`nodes, nodes`red, nil`red, n`left, n`right, n`red
    {
      && Kids(n)
      && (n.red && n != m ==> (n.left.red ==> n.left == c) && (n.right.red ==> n.right == c))
    }

    ghost predicate Reds(m: Node, c: Node)
      reads this`nodes, nodes`left, nodes`right, nodes`red, nil`red
    {
      forall n {:trigger RedAt(n, m, c)} | n in nodes :: RedAt(n, m, c)
    }

    ghost predicate SentinelFields()
      reads root`red, root`stored, nil`red, nil`maxHigh, nil`bh
    {
      !root.red && root.stored == null && !nil.red && nil.maxHigh == -MAX_TIME && nil.bh == 0
    }

    ghost predicate TopBlack(c: Node)
      reads this`nodes, root`left, root`right, nodes`red, nil`red
    {
      Kids(root) && (root.left.red ==> root.left == c)
    }

    /** Keys ascend along `order` and every node mirrors the interval it stores. */
    ghost predicate Keys()
      reads this`nodes, this`order, nodes`stored, nodes`key, nodes`high
    {
      && (forall i | 0 <= i < |order| :: order[i] in nodes)
      && (forall i, j | 0 <= i < j < |order| - 1 :: order[i].key <= order[j].key)
      && (forall n | n in nodes && n != root ::
            && n.stored != null && n.key == n.stored.low && n.high == n.stored.high
            && -MAX_TIME < n.key <= n.high)
    }

    ghost predicate Valid()
      reads this`nodes, this`order, nodes, root, nil
    {
      Shape() && Keys() && MaxHighs() && Blacks(nil, true) && Reds(nil, nil) && TopBlack(nil) && SentinelFields()
    }

    /** Between queries only the bottom entry of the stack is in use. */
    predicate StackReady()
      reads this`stack, this`stackTop
    {
      stackTop == 1 <= |stack|
    }

    constructor ()
      ensures Valid() && StackReady() && fresh(nil) && fresh(root) && nodes == {root} && order == [root]
    {
      var sentinel := new Node.Nil();
      nil := sentinel;
      root := new Node.Root(sentinel);
      nodes, order := {root}, [root];
      stack := seq(128, _ => RecursionNode(null, 0, false));
      stackTop, currentParent := 1, 0;
    }

    // ------------------------------------------------------------ rotations

    /** The child link of `p` that points to `x`, the left one if both do, is redirected to `y`. */
    method ReplaceChild(p: Node, x: Node, y: Node)
      modifies p`left, p`right
      ensures p.left == (if old(p.left) == x then y else old(p.left))
      ensures p.right == (if old(p.left) == x then old(p.right) else y)
    {
      if x == p.left {
        p.left := y;
      } else {
        p.right := y;
      }
    }

    /** What `LeftRotate(x)` does to the links and labels of every single node. */
    twostate predicate LeftRotated(x: Node)
      reads this, nodes
    {
      var y, b, p := old(x.right), old(x.right.left), old(x.parent);
      && nodes == old(nodes) && order == old(order) && x in nodes && y in nodes
      && (forall n {:trigger n.left} | n in nodes ::
            n.left == (if n == y then x else if n == p && old(p.left) == x then y else old(n.left)))
      && (forall n {:trigger n.right} | n in nodes ::
            n.right == (if n == x then b else if n == p && old(p.left) != x then y else old(n.right)))
      && (forall n {:trigger n.parent} | n in nodes ::
            n.parent == (if n == x then y else if n == y then p else if n == b then x else old(n.parent)))
      && (forall n {:trigger n.lo} | n in nodes :: n.lo == (if n == y then old(x.lo) else old(n.lo)))
      && (forall n {:trigger n.hi} | n in nodes ::
            n.hi == (if n == y then old(x.hi) else if n == x then y.pos else old(n.hi)))
      && (forall n {:trigger n.pos} | n in nodes :: n.pos == old(n.pos))
    }

    /** `LeftRotate(x)` recomputes `maxHigh` of the two rotated nodes. */
    twostate predicate LeftRotatedMaxHigh(x: Node)
      reads this, nodes, nil
    {
      && old(x.right) in nodes && x in nodes && nodes == old(nodes)
      && (forall n {:trigger n.high} | n in nodes :: n.high == old(n.high))
      && (forall n {:trigger n.maxHigh} | n in nodes && n != x && n != old(x.right) :: n.maxHigh == old(n.maxHigh))
      && nil.maxHigh == old(nil.maxHigh)
      && MaxAt(x) && MaxAt(old(x.right))
    }

    ghost predicate LeftRotatable(x: Node, y: Node, b: Node, p: Node)
      reads this`nodes, x`left, x`right, x`parent, y`left, y`right
    {
      && x in nodes && y in nodes && p in nodes && (b in nodes || b == nil) && nil !in nodes
      && y == x.right && b == y.left && p == x.parent
      && x != y && x != p && y != p && b != x && b != y && b != p
      && (x.left in nodes || x.left == nil) && (y.right in nodes || y.right == nil)
      && x.left != x && x.left != y && y.right != y && y.right != x
    }

    method LeftRotate(x: Node)
      requires LeftRotatable(x, x.right, x.right.left, x.parent)
      modifies nodes`left, nodes`right, nodes`parent, nodes`maxHigh, nodes`lo, nodes`hi
      ensures LeftRotated(x) && LeftRotatedMaxHigh(x)
    {
      var y := x.right;
      LeftRelink(x, y);
      x.maxHigh := Max(x.left.maxHigh, Max(x.right.maxHigh, x.high));
      y.maxHigh := Max(x.maxHigh, Max(y.right.maxHigh, y.high));
    }

    /** The pointer part of a left rotation. */
    method LeftRelink(x: Node, y: Node)
      requires LeftRotatable(x, y, y.left, x.parent)
      modifies nodes`left, nodes`right, nodes`parent, nodes`lo, nodes`hi
      ensures LeftRotated(x)
    {
      x.right := y.left;
      if y.left != nil {
        y.left.parent := x;
      }
      y.parent := x.parent;
      ReplaceChild(x.parent, x, y);
      y.left := x;
      x.parent := y;
      y.lo, y.hi := x.lo, x.hi;
      x.hi := y.pos;
    }

    lemma LeftRotatableIn(x: Node)
      requires Shape() && x in nodes && x != root && x.right != nil
      ensures LeftRotatable(x, x.right, x.right.left, x.parent)
    {
      assert ShapeAt(x) && ShapeAt(x.right) && ShapeAt(x.parent);
      assert x.right.left != nil ==> ShapeAt(x.right.left);
    }

    ghost predicate BeforeLeft(x: Node)
      reads this, nodes, x, x.right, x.parent
    {
      && LeftRotatable(x, x.right, x.right.left, x.parent) && x != root && nil !in nodes
      && ShapeAt(x) && ShapeAt(x.right) && ShapeAt(x.parent)
      && (forall n {:trigger ShapeAt(n)} | n in nodes :: ShapeAt(n))
    }

    twostate lemma LeftRotatedRange(x: Node)
      requires old(BeforeLeft(x)) && LeftRotated(x) && LeftRotatedMaxHigh(x)
      ensures forall n {:trigger RangeAt(n)} | n in nodes :: RangeAt(n)
    {
      forall n | n in nodes ensures RangeAt(n) {
        assert old(ShapeAt(n));
      }
    }

    twostate lemma LeftRotatedLeft(x: Node)
      requires old(BeforeLeft(x)) && LeftRotated(x) && LeftRotatedMaxHigh(x)
      ensures forall n {:trigger LeftAt(n)} | n in nodes :: LeftAt(n)
    {
      forall n | n in nodes ensures LeftAt(n) {
        assert old(ShapeAt(n));
      }
    }

    twostate lemma LeftRotatedRight(x: Node)
      requires old(BeforeLeft(x)) && LeftRotated(x) && LeftRotatedMaxHigh(x)
      ensures forall n {:trigger RightAt(n)} | n in nodes :: RightAt(n)
    {
      forall n | n in nodes ensures RightAt(n) {
        assert old(ShapeAt(n));
      }
    }

    twostate lemma LeftRotatedUp(x: Node)
      requires old(BeforeLeft(x)) && LeftRotated(x) && LeftRotatedMaxHigh(x)
      ensures forall n {:trigger UpAt(n)} | n in nodes :: UpAt(n)
    {
      forall n | n in nodes ensures UpAt(n) {
        assert old(ShapeAt(n));
      }
    }

    twostate lemma LeftRotatedMax(x: Node)
      requires old(BeforeLeft(x)) && LeftRotated(x) && LeftRotatedMaxHigh(x)
      requires old(MaxHighs()) && old(x.right) != root
      ensures MaxHighs()
    {
      var y := old(x.right);
      assert old(MaxAt(x)) && old(MaxAt(y));
      assert y.maxHigh == old(x.maxHigh);
      forall n | n in nodes && n != root ensures MaxAt(n) {
        assert old(ShapeAt(n)) && old(MaxAt(n));
      }
    }

    /** A rotation keeps the shape, the in-order sequence and the `maxHigh` annotation. */
    twostate lemma LeftRotateKeeps(x: Node)
      requires old(Shape()) && x in nodes && x != root && old(x.right) != nil
      requires old(LeftRotatable(x, x.right, x.right.left, x.parent))
      requires LeftRotated(x) && LeftRotatedMaxHigh(x)
      ensures Shape()
      ensures old(MaxHighs()) ==> MaxHighs()
    {
      assert old(ShapeAt(x)) && old(ShapeAt(x.right)) && old(ShapeAt(x.parent)) && old(ShapeAt(root));
      LeftRotatedRange(x);
      LeftRotatedLeft(x);
      LeftRotatedRight(x);
      LeftRotatedUp(x);
      if old(MaxHighs()) {
        LeftRotatedMax(x);
      }
    }

    /** What `RightRotate(x)` does to the links and labels of every single node. */
    twostate predicate RightRotated(x: Node)
      reads this, nodes
    {
      var y, b, p := old(x.left), old(x.left.right), old(x.parent);
      && nodes == old(nodes) && order == old(order) && x in nodes && y in nodes
      && (forall n {:trigger n.right} | n in nodes ::
            n.right == (if n == y then x else if n == p && old(p.left) != x then y else old(n.right)))
      && (forall n {:trigger n.left} | n in nodes ::
            n.left == (if n == x then b else if n == p && old(p.left) == x then y else old(n.left)))
      && (forall n {:trigger n.parent} | n in nodes ::
            n.parent == (if n == x then y else if n == y then p else if n == b then x else old(n.parent)))
      && (forall n {:trigger n.lo} | n in nodes ::
            n.lo == (if n == y then old(x.lo) else if n == x then y.pos + 1 else old(n.lo)))
      && (forall n {:trigger n.hi} | n in nodes :: n.hi == (if n == y then old(x.hi) else old(n.hi)))
      && (forall n {:trigger n.pos} | n in nodes :: n.pos == old(n.pos))
    }

    /** `RightRotate(x)` recomputes `maxHigh` of the two rotated nodes. */
    twostate predicate RightRotatedMaxHigh(x: Node)
      reads this, nodes, nil
    {
      && old(x.left) in nodes && x in nodes && nodes == old(nodes)
      && (forall n {:trigger n.high} | n in nodes :: n.high == old(n.high))
      && (forall n {:trigger n.maxHigh} | n in nodes && n != x && n != old(x.left) :: n.maxHigh == old(n.maxHigh))
      && nil.maxHigh == old(nil.maxHigh)
      && MaxAt(x) && MaxAt(old(x.left))
    }

    ghost predicate RightRotatable(x: Node, y: Node, b: Node, p: Node)
      reads this`nodes, x`right, x`left, x`parent, y`right, y`left
    {
      && x in nodes && y in nodes && p in nodes && (b in nodes || b == nil) && nil !in nodes
      && y == x.left && b == y.right && p == x.parent
      && x != y && x != p && y != p && b != x && b != y && b != p
      && (x.right in nodes || x.right == nil) && (y.left in nodes || y.left == nil)
      && x.right != x && x.right != y && y.left != y && y.left != x
    }

    method RightRotate(x: Node)
      requires RightRotatable(x, x.left, x.left.right, x.parent)
      modifies nodes`right, nodes`left, nodes`parent, nodes`maxHigh, nodes`lo, nodes`hi
      ensures RightRotated(x) && RightRotatedMaxHigh(x)
    {
      var y := x.left;
      RightRelink(x, y);
      x.maxHigh := Max(x.right.maxHigh, Max(x.left.maxHigh, x.high));
      y.maxHigh := Max(x.maxHigh, Max(y.left.maxHigh, y.high));
    }

    /** The pointer part of a right rotation. */
    method RightRelink(x: Node, y: Node)
      requires RightRotatable(x, y, y.right, x.parent)
      modifies nodes`right, nodes`left, nodes`parent, nodes`lo, nodes`hi
      ensures RightRotated(x)
    {
      x.left := y.right;
      if y.right != nil {
        y.right.parent := x;
      }
      y.parent := x.parent;
      ReplaceChild(x.parent, x, y);
      y.right := x;
      x.parent := y;
      y.lo, y.hi := x.lo, x.hi;
      x.lo := y.pos + 1;
    }

    lemma RightRotatableIn(x: Node)
      requires Shape() && x in nodes && x != root && x.left != nil
      ensures RightRotatable(x, x.left, x.left.right, x.parent)
    {
      assert ShapeAt(x) && ShapeAt(x.left) && ShapeAt(x.parent);
      assert x.left.right != nil ==> ShapeAt(x.left.right);
    }

    ghost predicate BeforeRight(x: Node)
      reads this, nodes, x, x.left, x.parent
    {
      && RightRotatable(x, x.left, x.left.right, x.parent) && x != root && nil !in nodes
      && ShapeAt(x) && ShapeAt(x.left) && ShapeAt(x.parent)
      && (forall n {:trigger ShapeAt(n)} | n in nodes :: ShapeAt(n))
    }

    twostate lemma RightRotatedRange(x: Node)
      requires old(BeforeRight(x)) && RightRotated(x) && RightRotatedMaxHigh(x)
      ensures forall n {:trigger RangeAt(n)} | n in nodes :: RangeAt(n)
    {
      forall n | n in nodes ensures RangeAt(n) {
        assert old(ShapeAt(n));
      }
    }

    twostate lemma RightRotatedRight(x: Node)
      requires old(BeforeRight(x)) && RightRotated(x) && RightRotatedMaxHigh(x)
      ensures forall n {:trigger RightAt(n)} | n in nodes :: RightAt(n)
    {
      forall n | n in nodes ensures RightAt(n) {
        assert old(ShapeAt(n));
      }
    }

    twostate lemma RightRotatedLeft(x: Node)
      requires old(BeforeRight(x)) && RightRotated(x) && RightRotatedMaxHigh(x)
      ensures forall n {:trigger LeftAt(n)} | n in nodes :: LeftAt(n)
    {
      forall n | n in nodes ensures LeftAt(n) {
        assert old(ShapeAt(n));
      }
    }

    twostate lemma RightRotatedUp(x: Node)
      requires old(BeforeRight(x)) && RightRotated(x) && RightRotatedMaxHigh(x)
      ensures forall n {:trigger UpAt(n)} | n in nodes :: UpAt(n)
    {
      forall n | n in nodes ensures UpAt(n) {
        assert old(ShapeAt(n));
      }
    }

    twostate lemma RightRotatedMax(x: Node)
      requires old(BeforeRight(x)) && RightRotated(x) && RightRotatedMaxHigh(x)
      requires old(MaxHighs()) && old(x.left) != root
      ensures MaxHighs()
    {
      var y := old(x.left);
      assert old(MaxAt(x)) && old(MaxAt(y));
      assert y.maxHigh == old(x.maxHigh);
      forall n | n in nodes && n != root ensures MaxAt(n) {
        assert old(ShapeAt(n)) && old(MaxAt(n));
      }
    }

    /** A rotation keeps the shape, the in-order sequence and the `maxHigh` annotation. */
    twostate lemma RightRotateKeeps(x: Node)
      requires old(Shape()) && x in nodes && x != root && old(x.left) != nil
      requires old(RightRotatable(x, x.left, x.left.right, x.parent))
      requires RightRotated(x) && RightRotatedMaxHigh(x)
      ensures Shape()
      ensures old(MaxHighs()) ==> MaxHighs()
    {
      assert old(ShapeAt(x)) && old(ShapeAt(x.left)) && old(ShapeAt(x.parent)) && old(ShapeAt(root));
      RightRotatedRange(x);
      RightRotatedRight(x);
      RightRotatedLeft(x);
      RightRotatedUp(x);
      if old(MaxHighs()) {
        RightRotatedMax(x);
      }
    }

    twostate predicate SameLinks()
      reads this, nodes
    {
      && nodes == old(nodes) && order == old(order)
      && (forall n {:trigger n.left} | n in nodes :: n.left == old(n.left))
      && (forall n {:trigger n.right} | n in nodes :: n.right == old(n.right))
      && (forall n {:trigger n.parent} | n in nodes :: n.parent == old(n.parent))
      && (forall n {:trigger n.lo} | n in nodes :: n.lo == old(n.lo))
      && (forall n {:trigger n.pos} | n in nodes :: n.pos == old(n.pos))
      && (forall n {:trigger n.hi} | n in nodes :: n.hi == old(n.hi))
    }

    twostate predicate SameMaxHighs()
      reads this, nodes, nil
    {
      && nodes == old(nodes) && nil.maxHigh == old(nil.maxHigh)
      && (forall n {:trigger n.high} | n in nodes :: n.high == old(n.high))
      && (forall n {:trigger n.maxHigh} | n in nodes :: n.maxHigh == old(n.maxHigh))
    }

    // ------------------------------------------------------------ insertion

    /** Holds while `Insert` repairs the colours: only `x` and its parent may both be red. */
    ghost predicate Inserting(x: Node)
      reads this`nodes, this`order, nodes, root, nil
    {
      && Shape() && MaxHighs() && SentinelFields()
      && Blacks(nil, true) && Reds(nil, x) && TopBlack(x)
      && x in nodes && x != root && x.red
    }

    /** `x` has a red parent, which has a black parent of its own other than the root sentinel. */
    ghost predicate RedParent(x: Node)
      reads this`nodes, nodes`parent, nodes`left, nodes`right, nodes`red
    {
      x in nodes && x.parent in nodes && x.parent.parent in nodes &&
      var p := x.parent; var g := p.parent;
      && p.red && p != root && g != root && !g.red
      && p != x && g != p && g != x && g.left != g.right && p.left != p.right
      && (x == p.left || x == p.right) && (p == g.left || p == g.right)
      && Kids(p) && Kids(g)
    }

    lemma Grandparent(x: Node)
      requires Inserting(x) && x.parent.red
      ensures RedParent(x)
    {
      assert ShapeAt(x) && ShapeAt(x.parent) && ShapeAt(root);
      var g := x.parent.parent;
      assert ShapeAt(g);
      assert RedAt(g, nil, x) && RedAt(x.parent, nil, x);
    }

    ghost function Uncle(x: Node): Node
      requires x in nodes && x.parent in nodes && x.parent.parent in nodes
      reads this, nodes
    {
      if x.parent == x.parent.parent.left then x.parent.parent.right else x.parent.parent.left
    }

    twostate predicate Recoloured(x: Node)
      requires old(RedParent(x))
      reads this, nodes, nil
    {
      && SameLinks() && SameMaxHighs() && nil.red == old(nil.red) && nil.bh == old(nil.bh)
      && var p, g, u := old(x.parent), old(x.parent.parent), old(Uncle(x));
      && (forall n {:trigger n.red} | n in nodes :: n.red == (if n == p || n == u then false else n == g || old(n.red)))
      && (forall n {:trigger n.bh} | n in nodes :: n.bh == (if n == p || n == u then old(n.bh) + 1 else old(n.bh)))
    }

    method Recolour(x: Node, uncle: Node)
      requires RedParent(x) && uncle == Uncle(x) && uncle in nodes && uncle != x.parent.parent && nil !in nodes
      modifies nodes`red, nodes`bh
      ensures Recoloured(x)
    {
      x.parent.red := false;
      uncle.red := false;
      x.parent.parent.red := true;
      x.parent.bh, uncle.bh := x.parent.bh + 1, uncle.bh + 1;
    }

    twostate lemma RecolouredKeeps(x: Node)
      requires old(Inserting(x)) && old(RedParent(x)) && old(Uncle(x)) in nodes && old(Uncle(x).red)
      requires Recoloured(x) && SentinelFields() && Shape() && MaxHighs()
      ensures Inserting(old(x.parent.parent))
    {
      RecolouredBlacks(x);
      RecolouredReds(x);
    }

    twostate lemma RecolouredBlacks(x: Node)
      requires old(Inserting(x)) && old(RedParent(x)) && old(Uncle(x)) in nodes && old(Uncle(x).red)
      requires Recoloured(x)
      ensures Blacks(nil, true)
    {
      var p, g := old(x.parent), old(x.parent.parent);
      assert old(ShapeAt(p)) && old(ShapeAt(g)) && old(ShapeAt(x));
      forall n | n in nodes && n != root ensures BlackAt(n, nil, true) {
        assert old(ShapeAt(n)) && old(BlackAt(n, nil, true));
      }
    }

    twostate lemma RecolouredReds(x: Node)
      requires old(Inserting(x)) && old(RedParent(x)) && old(Uncle(x)) in nodes && old(Uncle(x).red)
      requires Recoloured(x)
      ensures Reds(nil, old(x.parent.parent)) && TopBlack(old(x.parent.parent))
    {
      var p, g := old(x.parent), old(x.parent.parent);
      assert old(ShapeAt(p)) && old(ShapeAt(g)) && old(ShapeAt(x)) && old(ShapeAt(root));
      forall n | n in nodes ensures RedAt(n, nil, g) {
        assert old(ShapeAt(n)) && old(RedAt(n, nil, x));
      }
    }

    /** `Inserting` with `x` the inner grandchild on the left side, so that its parent has to be rotated first. */
    ghost predicate LeftInner(x: Node)
      reads this`nodes, this`order, nodes, root, nil
    {
      && Inserting(x) && RedParent(x) && x == x.parent.right && x.parent == x.parent.parent.left
      && LeftRotatable(x.parent, x, x.left, x.parent.parent)
    }

    twostate lemma LeftInnerBlacks(x: Node)
      requires old(LeftInner(x)) && LeftRotated(old(x.parent)) && LeftRotatedMaxHigh(old(x.parent))
      requires forall n {:trigger n.bh} | n in nodes :: n.red == old(n.red) && n.bh == old(n.bh)
      requires nil.bh == 0
      ensures Blacks(nil, true)
    {
      var p, g := old(x.parent), old(x.parent.parent);
      assert old(ShapeAt(p)) && old(ShapeAt(g)) && old(ShapeAt(x));
      assert old(BlackAt(p, nil, true)) && old(BlackAt(x, nil, true));
      forall n | n in nodes && n != root ensures BlackAt(n, nil, true) {
        assert old(ShapeAt(n)) && old(BlackAt(n, nil, true));
      }
    }

    twostate lemma LeftInnerReds(x: Node)
      requires old(LeftInner(x)) && LeftRotated(old(x.parent)) && LeftRotatedMaxHigh(old(x.parent))
      requires forall n {:trigger n.red} | n in nodes :: n.red == old(n.red)
      requires nil.red == old(nil.red)
      ensures Reds(nil, old(x.parent)) && TopBlack(old(x.parent))
    {
      var p, g := old(x.parent), old(x.parent.parent);
      assert old(ShapeAt(p)) && old(ShapeAt(g)) && old(ShapeAt(x)) && old(ShapeAt(root));
      assert old(RedAt(p, nil, x)) && old(RedAt(x, nil, x)) && old(RedAt(g, nil, x));
      forall n | n in nodes ensures RedAt(n, nil, p) {
        assert old(ShapeAt(n)) && old(RedAt(n, nil, x));
      }
    }

    /** `Inserting` with `x` the inner grandchild on the right side, so that its parent has to be rotated first. */
    ghost predicate RightInner(x: Node)
      reads this`nodes, this`order, nodes, root, nil
    {
      && Inserting(x) && RedParent(x) && x == x.parent.left && x.parent == x.parent.parent.right
      && RightRotatable(x.parent, x, x.right, x.parent.parent)
    }

    twostate lemma RightInnerBlacks(x: Node)
      requires old(RightInner(x)) && RightRotated(old(x.parent)) && RightRotatedMaxHigh(old(x.parent))
      requires forall n {:trigger n.bh} | n in nodes :: n.red == old(n.red) && n.bh == old(n.bh)
      requires nil.bh == 0
      ensures Blacks(nil, true)
    {
      var p, g := old(x.parent), old(x.parent.parent);
      assert old(ShapeAt(p)) && old(ShapeAt(g)) && old(ShapeAt(x));
      assert old(BlackAt(p, nil, true)) && old(BlackAt(x, nil, true));
      forall n | n in nodes && n != root ensures BlackAt(n, nil, true) {
        assert old(ShapeAt(n)) && old(BlackAt(n, nil, true));
      }
    }

    twostate lemma RightInnerReds(x: Node)
      requires old(RightInner(x)) && RightRotated(old(x.parent)) && RightRotatedMaxHigh(old(x.parent))
      requires forall n {:trigger n.red} | n in nodes :: n.red == old(n.red)
      requires nil.red == old(nil.red)
      ensures Reds(nil, old(x.parent)) && TopBlack(old(x.parent))
    {
      var p, g := old(x.parent), old(x.parent.parent);
      assert old(ShapeAt(p)) && old(ShapeAt(g)) && old(ShapeAt(x)) && old(ShapeAt(root));
      assert old(RedAt(p, nil, x)) && old(RedAt(x, nil, x)) && old(RedAt(g, nil, x));
      forall n | n in nodes ensures RedAt(n, nil, p) {
        assert old(ShapeAt(n)) && old(RedAt(n, nil, x));
      }
    }

    /** `Inserting` with `x` the outer grandchild on the left side and a black uncle. */
    ghost predicate LeftOuter(x: Node)
      reads this`nodes, this`order, nodes, root, nil
    {
      && Inserting(x) && RedParent(x) && x == x.parent.left && x.parent == x.parent.parent.left
      && !x.parent.parent.right.red
      && RightRotatable(x.parent.parent, x.parent, x.parent.right, x.parent.parent.parent)
    }

    /** The parent becomes black and takes the place of the grandparent, which becomes red. */
    twostate predicate LeftLifted(x: Node)
      requires old(RedParent(x))
      reads this, nodes, nil
    {
      && var p, g := old(x.parent), old(x.parent.parent);
      && RightRotated(g) && RightRotatedMaxHigh(g) && nil.red == old(nil.red) && nil.bh == old(nil.bh)
      && (forall n {:trigger n.red} | n in nodes :: n.red == (if n == p then false else n == g || old(n.red)))
      && (forall n {:trigger n.bh} | n in nodes ::
            n.bh == (if n == p then old(n.bh) + 1 else if n == g then old(n.bh) - 1 else old(n.bh)))
    }

    method LeftLift(x: Node)
      requires RedParent(x) && x.parent == x.parent.parent.left
      requires RightRotatable(x.parent.parent, x.parent, x.parent.right, x.parent.parent.parent)
      modifies nodes`left, nodes`right, nodes`parent, nodes`maxHigh, nodes`lo, nodes`hi, nodes`red, nodes`bh
      ensures LeftLifted(x)
    {
      x.parent.red := false;
      x.parent.parent.red := true;
      x.parent.bh, x.parent.parent.bh := x.parent.bh + 1, x.parent.parent.bh - 1;
      RightRotate(x.parent.parent);
    }

    twostate lemma LeftLiftedBlacks(x: Node)
      requires old(LeftOuter(x)) && LeftLifted(x)
      ensures Blacks(nil, true)
    {
      var p, g := old(x.parent), old(x.parent.parent);
      assert old(ShapeAt(p)) && old(ShapeAt(g)) && old(ShapeAt(x));
      assert old(BlackAt(p, nil, true)) && old(BlackAt(g, nil, true));
      forall n | n in nodes && n != root ensures BlackAt(n, nil, true) {
        assert old(ShapeAt(n)) && old(BlackAt(n, nil, true));
      }
    }

    twostate lemma LeftLiftedReds(x: Node)
      requires old(LeftOuter(x)) && LeftLifted(x)
      ensures Reds(nil, x) && TopBlack(x)
    {
      var p, g := old(x.parent), old(x.parent.parent);
      assert old(ShapeAt(p)) && old(ShapeAt(g)) && old(ShapeAt(x)) && old(ShapeAt(root));
      assert old(RedAt(p, nil, x)) && old(RedAt(x, nil, x)) && old(RedAt(g, nil, x));
      forall n | n in nodes ensures RedAt(n, nil, x) {
        assert old(ShapeAt(n)) && old(RedAt(n, nil, x));
      }
    }

    twostate lemma LeftLiftedKeeps(x: Node)
      requires old(LeftOuter(x)) && LeftLifted(x) && SentinelFields()
      ensures Inserting(x) && !x.parent.red
    {
      var g := old(x.parent.parent);
      assert old(ShapeAt(g)) && old(ShapeAt(x));
      RightRotateKeeps(g);
      LeftLiftedBlacks(x);
      LeftLiftedReds(x);
    }

    /** An inner grandchild on the left side changes places with its parent. */
    method TurnLeftOut(x0: Node) returns (x: Node)
      requires Inserting(x0) && RedParent(x0) && x0.parent == x0.parent.parent.left && !x0.parent.parent.right.red
      modifies nodes`left, nodes`right, nodes`parent, nodes`maxHigh, nodes`lo, nodes`hi
      ensures LeftOuter(x)
    {
      x := x0;
      assert ShapeAt(x) && ShapeAt(x.parent) && ShapeAt(x.parent.parent);
      if x == x.parent.right {
        x := x.parent;
        LeftRotatableIn(x);
        LeftRotate(x);
        LeftRotateKeeps(x);
        LeftInnerBlacks(x0);
        LeftInnerReds(x0);
      }
      Grandparent(x);
      RightRotatableIn(x.parent.parent);
    }

    /** One round of `Insert` for a parent that is a left child. */
    method InsertFixupLeft(x0: Node) returns (x: Node)
      requires Inserting(x0) && x0.parent.red && x0.parent.parent in nodes && x0.parent == x0.parent.parent.left
      modifies nodes`left, nodes`right, nodes`parent, nodes`maxHigh, nodes`lo, nodes`hi, nodes`red, nodes`bh
      ensures Inserting(x)
      ensures x.parent.red ==> x.hi - x.lo > old(x0.hi - x0.lo)
    {
      x := x0;
      Grandparent(x);
      var y := x.parent.parent.right;
      assert ShapeAt(x) && ShapeAt(x.parent) && ShapeAt(x.parent.parent);
      if y.red {
        Recolour(x, y);
        RecolouredKeeps(x);
        x := x.parent.parent;
      } else {
        x := TurnLeftOut(x);
        label outer:
        LeftLift(x);
        LeftLiftedKeeps@outer(x);
      }
    }

    /** `Inserting` with `x` the outer grandchild on the right side and a black uncle. */
    ghost predicate RightOuter(x: Node)
      reads this`nodes, this`order, nodes, root, nil
    {
      && Inserting(x) && RedParent(x) && x == x.parent.right && x.parent == x.parent.parent.right
      && !x.parent.parent.left.red
      && LeftRotatable(x.parent.parent, x.parent, x.parent.left, x.parent.parent.parent)
    }

    /** The parent becomes black and takes the place of the grandparent, which becomes red. */
    twostate predicate RightLifted(x: Node)
      requires old(RedParent(x))
      reads this, nodes, nil
    {
      && var p, g := old(x.parent), old(x.parent.parent);
      && LeftRotated(g) && LeftRotatedMaxHigh(g) && nil.red == old(nil.red) && nil.bh == old(nil.bh)
      && (forall n {:trigger n.red} | n in nodes :: n.red == (if n == p then false else n == g || old(n.red)))
      && (forall n {:trigger n.bh} | n in nodes ::
            n.bh == (if n == p then old(n.bh) + 1 else if n == g then old(n.bh) - 1 else old(n.bh)))
    }

    method RightLift(x: Node)
      requires RedParent(x) && x.parent == x.parent.parent.right
      requires LeftRotatable(x.parent.parent, x.parent, x.parent.left, x.parent.parent.parent)
      modifies nodes`right, nodes`left, nodes`parent, nodes`maxHigh, nodes`lo, nodes`hi, nodes`red, nodes`bh
      ensures RightLifted(x)
    {
      x.parent.red := false;
      x.parent.parent.red := true;
      x.parent.bh, x.parent.parent.bh := x.parent.bh + 1, x.parent.parent.bh - 1;
      LeftRotate(x.parent.parent);
    }

    twostate lemma RightLiftedBlacks(x: Node)
      requires old(RightOuter(x)) && RightLifted(x)
      ensures Blacks(nil, true)
    {
      var p, g := old(x.parent), old(x.parent.parent);
      assert old(ShapeAt(p)) && old(ShapeAt(g)) && old(ShapeAt(x));
      assert old(BlackAt(p, nil, true)) && old(BlackAt(g, nil, true));
      forall n | n in nodes && n != root ensures BlackAt(n, nil, true) {
        assert old(ShapeAt(n)) && old(BlackAt(n, nil, true));
      }
    }

    twostate lemma RightLiftedReds(x: Node)
      requires old(RightOuter(x)) && RightLifted(x)
      ensures Reds(nil, x) && TopBlack(x)
    {
      var p, g := old(x.parent), old(x.parent.parent);
      assert old(ShapeAt(p)) && old(ShapeAt(g)) && old(ShapeAt(x)) && old(ShapeAt(root));
      assert old(RedAt(p, nil, x)) && old(RedAt(x, nil, x)) && old(RedAt(g, nil, x));
      forall n | n in nodes ensures RedAt(n, nil, x) {
        assert old(ShapeAt(n)) && old(RedAt(n, nil, x));
      }
    }

    twostate lemma RightLiftedKeeps(x: Node)
      requires old(RightOuter(x)) && RightLifted(x) && SentinelFields()
      ensures Inserting(x) && !x.parent.red
    {
      var g := old(x.parent.parent);
      assert old(ShapeAt(g)) && old(ShapeAt(x));
      LeftRotateKeeps(g);
      RightLiftedBlacks(x);
      RightLiftedReds(x);
    }

    /** An inner grandchild on the right side changes places with its parent. */
    method TurnRightOut(x0: Node) returns (x: Node)
      requires Inserting(x0) && RedParent(x0) && x0.parent == x0.parent.parent.right && !x0.parent.parent.left.red
      modifies nodes`right, nodes`left, nodes`parent, nodes`maxHigh, nodes`lo, nodes`hi
      ensures RightOuter(x)
    {
      x := x0;
      assert ShapeAt(x) && ShapeAt(x.parent) && ShapeAt(x.parent.parent);
      if x == x.parent.left {
        x := x.parent;
        RightRotatableIn(x);
        RightRotate(x);
        RightRotateKeeps(x);
        RightInnerBlacks(x0);
        RightInnerReds(x0);
      }
      Grandparent(x);
      LeftRotatableIn(x.parent.parent);
    }

    /** One round of `Insert` for a parent that is a right child. */
    method InsertFixupRight(x0: Node) returns (x: Node)
      requires Inserting(x0) && x0.parent.red && x0.parent.parent in nodes && x0.parent == x0.parent.parent.right
      modifies nodes`right, nodes`left, nodes`parent, nodes`maxHigh, nodes`lo, nodes`hi, nodes`red, nodes`bh
      ensures Inserting(x)
      ensures x.parent.red ==> x.hi - x.lo > old(x0.hi - x0.lo)
    {
      x := x0;
      Grandparent(x);
      var y := x.parent.parent.left;
      assert ShapeAt(x) && ShapeAt(x.parent) && ShapeAt(x.parent.parent);
      if y.red {
        Recolour(x, y);
        RecolouredKeeps(x);
        x := x.parent.parent;
      } else {
        x := TurnRightOut(x);
        label outer:
        RightLift(x);
        RightLiftedKeeps@outer(x);
      }
    }

    /** The neighbours of `y` in the in-order sequence, outside of its subtree, are ancestors of `y`. */
    ghost predicate Nested(y: Node)
      reads this, nodes
    {
      && y in nodes && 0 <= y.lo < y.hi <= |order|
      && (y.lo > 0 ==> order[y.lo - 1] in nodes && order[y.lo - 1].hi >= y.hi)
      && (y.hi < |order| ==> order[y.hi] in nodes && order[y.hi].lo <= y.lo)
    }

    /** The left or right link of `y` is free and stands for position `p`. */
    ghost predicate FreeSlot(y: Node, asLeft: bool, p: int)
      reads this, nodes
    {
      && Nested(y) && 0 <= p < |order|
      && (if asLeft then y.lo == y.pos == p else y != root && y.pos + 1 == y.hi == p)
    }

    /** `z` became a leaf below `z.parent`, at index `z.pos` of the in-order sequence. */
    twostate predicate Inserted(z: Node)
      reads this, nodes
    {
      z in nodes && z.parent in old(nodes) && z.parent in nodes && old(z !in nodes) &&
      var y, p, asLeft := z.parent, z.pos, z.parent.left == z;
      && nodes == old(nodes) + {z} && old(FreeSlot(y, asLeft, p))
      && order == old(order[..p]) + [z] + old(order[p..])
      && z.left == nil && z.right == nil && z.lo == p && z.hi == p + 1
      && (forall n {:trigger n.left} | n in old(nodes) :: n.left == if n == y && asLeft then z else old(n.left))
      && (forall n {:trigger n.right} | n in old(nodes) :: n.right == if n == y && !asLeft then z else old(n.right))
      && (forall n {:trigger n.parent} | n in old(nodes) :: n.parent == old(n.parent))
      && (forall n {:trigger n.lo} | n in old(nodes) :: n.lo == if old(n.lo) > p then old(n.lo) + 1 else old(n.lo))
      && (forall n {:trigger n.pos} | n in old(nodes) :: n.pos == if old(n.pos) >= p then old(n.pos) + 1 else old(n.pos))
      && (forall n {:trigger n.hi} | n in old(nodes) :: n.hi == if old(n.hi) >= p then old(n.hi) + 1 else old(n.hi))
    }

    twostate lemma InsertedOrder(z: Node)
      requires old(Shape()) && Inserted(z)
      ensures |order| == old(|order|) + 1 && order[z.pos] == z
      ensures forall i | 0 <= i < |order| :: order[i] in nodes && order[i].pos == i
    {
      var p := z.pos;
      forall i | 0 <= i < |order| ensures order[i] in nodes && order[i].pos == i {
        assert order[i] == if i < p then old(order)[i] else if i == p then z else old(order)[i - 1];
      }
    }

    twostate lemma InsertedRange(z: Node)
      requires old(Shape()) && Inserted(z)
      ensures forall n {:trigger RangeAt(n)} | n in nodes :: RangeAt(n)
    {
      var p := z.pos;
      forall n | n in nodes ensures RangeAt(n) {
        assert n != z ==> old(ShapeAt(n));
        assert n != z ==> order[n.pos] == old(order)[old(n.pos)];
      }
    }

    twostate lemma InsertedLeft(z: Node)
      requires old(Shape()) && Inserted(z)
      ensures forall n {:trigger LeftAt(n)} | n in nodes :: LeftAt(n)
    {
      var p := z.pos;
      var y := z.parent;
      assert old(ShapeAt(y));
      forall n | n in nodes ensures LeftAt(n) {
        if n != z {
          assert old(ShapeAt(n));
          assert old(n.lo == n.pos == p) ==> n == old(order[p]) && z.parent.left == z;
        }
      }
    }

    twostate lemma InsertedRight(z: Node)
      requires old(Shape()) && Inserted(z)
      ensures forall n {:trigger RightAt(n)} | n in nodes :: RightAt(n)
    {
      var p := z.pos;
      var y := z.parent;
      assert old(ShapeAt(y));
      forall n | n in nodes ensures RightAt(n) {
        if n != z {
          assert old(ShapeAt(n));
          assert old(n.pos + 1 == n.hi == p) ==> n == old(order[p - 1]) && z.parent.left != z;
        }
      }
    }

    twostate lemma InsertedUp(z: Node)
      requires old(Shape()) && Inserted(z)
      ensures forall n {:trigger UpAt(n)} | n in nodes :: UpAt(n)
    {
      var y := z.parent;
      assert old(ShapeAt(y));
      forall n | n in nodes ensures UpAt(n) {
        assert n != z ==> old(ShapeAt(n));
      }
    }

    twostate lemma InsertedShape(z: Node)
      requires old(Shape()) && Inserted(z) && nil !in nodes
      ensures Shape()
    {
      assert old(ShapeAt(root));
      InsertedOrder(z);
      InsertedRange(z);
      InsertedLeft(z);
      InsertedRight(z);
      InsertedUp(z);
    }

    twostate lemma InsertedKeys(z: Node)
      requires old(Shape()) && old(Keys()) && Inserted(z)
      requires forall n | n in old(nodes) :: n.key == old(n.key) && n.high == old(n.high) && n.stored == old(n.stored)
      requires z.stored != null && z.key == z.stored.low && z.high == z.stored.high && -MAX_TIME < z.key <= z.high
      requires var p := z.pos; forall i | 0 <= i < p :: old(order[i].key) <= z.key
      requires var p := z.pos; forall i | p <= i < old(|order|) - 1 :: z.key < old(order[i].key)
      ensures Keys()
    {
      var p := z.pos;
      InsertedOrder(z);
      forall i, j | 0 <= i < j < |order| - 1 ensures order[i].key <= order[j].key {
        assert order[i] == if i < p then old(order)[i] else if i == p then z else old(order)[i - 1];
        assert order[j] == if j < p then old(order)[j] else if j == p then z else old(order)[j - 1];
      }
    }

    /** Renumbers the nodes so that position `p` becomes free. */
    ghost method MakeRoom(p: int)
      modifies nodes`lo, nodes`pos, nodes`hi
      ensures forall n {:trigger n.lo} | n in nodes :: n.lo == if old(n.lo) > p then old(n.lo) + 1 else old(n.lo)
      ensures forall n {:trigger n.pos} | n in nodes :: n.pos == if old(n.pos) >= p then old(n.pos) + 1 else old(n.pos)
      ensures forall n {:trigger n.hi} | n in nodes :: n.hi == if old(n.hi) >= p then old(n.hi) + 1 else old(n.hi)
    {
      forall n | n in nodes { n.lo := if n.lo > p then n.lo + 1 else n.lo; }
      forall n | n in nodes { n.pos := if n.pos >= p then n.pos + 1 else n.pos; }
      forall n | n in nodes { n.hi := if n.hi >= p then n.hi + 1 else n.hi; }
    }

    /** Links `z` as a leaf into the free slot of `y`. */
    method HangBelow(z: Node, y: Node, ghost p: int)
      requires y in nodes && y.left != z && z !in nodes && z != nil
      requires FreeSlot(y, y == root || z.key < y.key, p)
      modifies this`nodes, this`order, z`left, z`right, z`parent, z`lo, z`pos, z`hi
      modifies nodes`left, nodes`right, nodes`lo, nodes`pos, nodes`hi
      ensures Inserted(z) && z.pos == p
    {
      z.left, z.right := nil, nil;
      z.parent := y;
      if y == root || y.key > z.key {
        y.left := z;
      } else {
        y.right := z;
      }
      MakeRoom(p);
      z.lo, z.pos, z.hi := p, p, p + 1;
      order := order[..p] + [z] + order[p..];
      nodes := nodes + {z};
    }

    // ------------------------------------------------------------ max_high repair

    /** `n` is `x` or an ancestor of `x`. */
    ghost predicate Above(n: Node, x: Node)
      reads n`lo, n`hi, x`pos
    {
      n.lo <= x.pos < n.hi
    }

    /** Whoever has `x` strictly below it has the parent of `x` in its subtree. */
    lemma {:induction false} AboveParent(n: Node, x: Node)
      requires Shape() && n in nodes && x in nodes && x != root && n != x && Above(n, x)
      ensures x.parent in nodes && Above(n, x.parent)
      decreases n.hi - n.lo
    {
      assert ShapeAt(n) && ShapeAt(x) && ShapeAt(x.parent);
      var c := if x.pos < n.pos then n.left else n.right;
      assert ShapeAt(c);
      if c != x {
        AboveParent(c, x);
      }
    }

    ghost predicate MaxHighsBut(x: Node)
      reads this`nodes, nodes`left, nodes`right, nodes`high, nodes`maxHigh, nodes`lo, nodes`hi, nil`maxHigh, x`pos
    {
      forall n {:trigger MaxAt(n)} | n in nodes && n != root && !Above(n, x) :: MaxAt(n)
    }

    /** Only the root sentinel has itself in its range. */
    lemma {:induction false} BelowRoot(n: Node)
      requires Shape() && n in nodes && n != root
      ensures !Above(n, root)
      decreases n.hi - n.lo
    {
      assert ShapeAt(n) && ShapeAt(root);
      if n.hi == |order| {
        assert order[n.pos] == n && order[root.pos] == root;
        BelowRoot(n.right);
      }
    }

    /** Recomputes `maxHigh` from `x0` up to the top. */
    method FixupMaxHigh(x0: Node)
      requires Shape() && x0 in nodes && MaxHighsBut(x0)
      modifies nodes`maxHigh
      ensures Shape() && MaxHighs()
    {
      var x := x0;
      while x != root
        invariant Shape() && x in nodes && ShapeAt(x) && MaxHighsBut(x)
        decreases |order| - (x.hi - x.lo)
      {
        label before:
        assert ShapeAt(x.parent);
        x.maxHigh := Max(x.high, Max(x.left.maxHigh, x.right.maxHigh));
        MaxHighStep@before(x);
        x := x.parent;
      }
      forall n | n in nodes && n != root ensures MaxAt(n) {
        BelowRoot(n);
      }
    }

    twostate lemma MaxHighStep(x: Node)
      requires old(Shape()) && old(MaxHighsBut(x)) && Shape() && SameLinks() && x in nodes && x != root && MaxAt(x)
      requires forall n {:trigger n.high} | n in nodes :: n.high == old(n.high)
      requires forall n {:trigger n.maxHigh} | n in nodes && n != x :: n.maxHigh == old(n.maxHigh)
      requires nil.maxHigh == old(nil.maxHigh)
      ensures x.parent in nodes && MaxHighsBut(x.parent)
    {
      assert ShapeAt(x) && ShapeAt(x.parent);
      forall n | n in nodes && n != root && !Above(n, x.parent) ensures MaxAt(n) {
        assert ShapeAt(n);
        if n != x {
          if Above(n, x) { AboveParent(n, x); }
          assert old(MaxAt(n));
        }
      }
    }

    twostate lemma InsertedMaxHighs(z: Node)
      requires old(Shape()) && old(MaxHighs()) && Inserted(z) && Shape() && SentinelFields()
      requires forall n {:trigger n.high} | n in old(nodes) :: n.high == old(n.high)
      requires forall n {:trigger n.maxHigh} | n in old(nodes) :: n.maxHigh == old(n.maxHigh)
      requires nil.maxHigh == old(nil.maxHigh) && z.maxHigh == z.high && -MAX_TIME < z.high && nil !in nodes
      ensures MaxHighsBut(z.parent)
    {
      assert ShapeAt(z.parent);
      forall n | n in nodes && n != root && !Above(n, z.parent) ensures MaxAt(n) {
        assert n != z ==> old(MaxAt(n));
      }
    }

    twostate lemma InsertedColours(z: Node)
      requires old(Valid()) && Inserted(z) && Shape() && SentinelFields() && !z.red && z.bh == 0 && z != root
      requires forall n {:trigger n.red} | n in old(nodes) :: n.red == old(n.red)
      requires forall n {:trigger n.bh} | n in old(nodes) :: n.bh == old(n.bh)
      ensures Coloured(z)
    {
      assert ShapeAt(root) && old(ShapeAt(root)) && ShapeAt(z);
      forall n | n in nodes && n != root && n != z ensures BlackAt(n, nil, true) {
        assert n != z ==> old(ShapeAt(n)) && old(BlackAt(n, nil, true));
      }
      forall n | n in nodes ensures RedAt(n, nil, z) {
        assert n != z ==> old(ShapeAt(n)) && old(RedAt(n, nil, nil));
      }
    }

    ghost predicate Mirrors(z: Node)
      reads z
    {
      z.stored != null && z.key == z.stored.low && z.maxHigh == z.high == z.stored.high && -MAX_TIME < z.key <= z.high
    }

    twostate lemma InsertedKeeps(z: Node)
      requires old(Valid()) && Inserted(z) && Mirrors(z) && nil !in nodes && SentinelFields()
      requires forall n {:trigger n.key} | n in old(nodes) :: n.key == old(n.key)
      requires forall n {:trigger n.stored} | n in old(nodes) :: n.stored == old(n.stored)
      requires forall n {:trigger n.high} | n in old(nodes) :: n.high == old(n.high)
      requires forall n {:trigger n.maxHigh} | n in old(nodes) :: n.maxHigh == old(n.maxHigh)
      requires var p := z.pos; forall i | 0 <= i < p :: old(order[i].key) <= z.key
      requires var p := z.pos; forall i | p <= i < old(|order|) - 1 :: z.key < old(order[i].key)
      ensures Shape() && Keys() && MaxHighsBut(z.parent)
    {
      InsertedShape(z);
      InsertedKeys(z);
      InsertedMaxHighs(z);
    }

    /** Hangs `z` below the tree as in an ordinary binary search tree. */
    method RecursiveInsert(z: Node)
      requires Valid() && Mirrors(z) && z !in nodes && z != nil
      modifies this`nodes, this`order, z`left, z`right, z`parent, z`lo, z`pos, z`hi
      modifies nodes`left, nodes`right, nodes`lo, nodes`pos, nodes`hi
      ensures Inserted(z)
      ensures var p := z.pos; forall i | 0 <= i < p :: old(order[i].key) <= z.key
      ensures var p := z.pos; forall i | p <= i < old(|order|) - 1 :: z.key < old(order[i].key)
    {
      hide Valid, FreeSlot;
      ghost var p;
      var y;
      y, p := FindSlot(z);
      HangBelow(z, y, p);
    }

    /** The way down, to the left of larger keys. */
    method FindSlot(z: Node) returns (y: Node, ghost p: int)
      requires Valid() && z !in nodes && z != nil
      ensures y in nodes && y.left != z && FreeSlot(y, y == root || z.key < y.key, p) && 0 <= p < |order|
      ensures forall i | 0 <= i < p :: order[i].key <= z.key
      ensures forall i | p <= i < |order| - 1 :: z.key < order[i].key
    {
      hide Valid, Shape, Keys, Descending, ShapeAt, FreeSlot;
      y := root;
      var x := root.left;
      ghost var h := |order| - 1;
      p := 0;
      DescentBegins(z);
      while x != nil
        invariant Descending(z, x, y, p, h)
        decreases h - p
      {
        StepDown(z, x, y, p, h);
        y := x;
        if x.key > z.key {
          h := x.pos;
          x := x.left;
        } else {
          p := x.pos + 1;
          x := x.right;
        }
      }
      DescentEnds(z, y, p, h);
    }

    /** The keys before position `l` are not larger than that of `z`, those from `h` on are; the tree at `x` is between them. */
    ghost predicate Descending(z: Node, x: Node, y: Node, l: int, h: int)
      reads this, nodes, z`key
    {
      && y in nodes && Nested(y) && ShapeAt(y) && 0 <= l <= h < |order| && Slot(x, y, l, h)
      && (if y == root || z.key < y.key then l == y.lo && h == y.pos else l == y.pos + 1 && h == y.hi)
      && (forall i | 0 <= i < l :: order[i] in nodes && order[i].key <= z.key)
      && (forall i | h <= i < |order| - 1 :: order[i] in nodes && z.key < order[i].key)
    }

    lemma DescentBegins(z: Node)
      requires Valid()
      ensures Shape() && Keys() && Descending(z, root.left, root, 0, |order| - 1)
    {
      assert ShapeAt(root);
    }

    lemma DescentEnds(z: Node, y: Node, l: int, h: int)
      requires Shape() && Keys() && Descending(z, nil, y, l, h) && z !in nodes && z != nil
      ensures y in nodes && y.left != z && FreeSlot(y, y == root || z.key < y.key, l)
      ensures 0 <= l < |order|
      ensures forall i | 0 <= i < l :: order[i].key <= z.key
      ensures forall i | l <= i < |order| - 1 :: z.key < order[i].key
    {
    }

    lemma StepDown(z: Node, x: Node, y: Node, l: int, h: int)
      requires Shape() && Keys() && Descending(z, x, y, l, h) && x != nil
      ensures x in nodes && l <= x.pos < h
      ensures if x.key > z.key then Descending(z, x.left, x, l, x.pos) else Descending(z, x.right, x, x.pos + 1, h)
    {
      assert ShapeAt(x);
    }

    method Link(z: Node)
      requires Valid() && Mirrors(z) && z !in nodes && z != nil && !z.red && z.bh == 0
      modifies this`nodes, this`order, z`left, z`right, z`parent, z`lo, z`pos, z`hi
      modifies nodes`left, nodes`right, nodes`lo, nodes`pos, nodes`hi
      ensures Shape() && Keys() && MaxHighsBut(z.parent) && SentinelFields() && Coloured(z)
      ensures nodes == old(nodes) + {z} && z.parent in nodes && z != root
      ensures 0 <= z.pos < old(|order|) && order == old(order)[..z.pos] + [z] + old(order)[z.pos..]
    {
      RecursiveInsert(z);
      InsertedKeeps(z);
      InsertedColours(z);
    }

    /** The colours are right everywhere if only `z`, a black leaf of black height 0, is made red. */
    ghost predicate Coloured(z: Node)
      reads this`nodes, nodes`left, nodes`right, nodes`red, nodes`bh, nil`red, nil`bh, root`left, root`right
    {
      && z in nodes && z.bh == 0 && z.left == nil && z.right == nil && Kids(root) && (root.left == z || !root.left.red)
      && (forall n {:trigger BlackAt(n, nil, true)} | n in nodes && n != root && n != z :: BlackAt(n, nil, true))
      && (forall n {:trigger RedAt(n, nil, z)} | n in nodes :: RedAt(n, nil, z))
    }

    method PaintRed(z: Node)
      requires Coloured(z) && !nil.red && nil.bh == 0 && nil !in nodes && z != root
      modifies z`red
      ensures z.red && Blacks(nil, true) && Reds(nil, z) && TopBlack(z)
    {
      z.red := true;
      forall n | n in nodes && n != root ensures BlackAt(n, nil, true) {
        assert n != z ==> old(BlackAt(n, nil, true));
      }
      forall n | n in nodes ensures RedAt(n, nil, z) {
        assert old(RedAt(n, nil, z));
      }
    }

    /** Links the red node `x` and repairs `maxHigh`; the colours are still to be repaired. */
    method Place(x: Node)
      requires Valid() && Mirrors(x) && x !in nodes && x != nil && !x.red && x.bh == 0
      modifies this`nodes, this`order, x`left, x`right, x`parent, x`lo, x`pos, x`hi, x`maxHigh, x`red
      modifies nodes`left, nodes`right, nodes`maxHigh, nodes`lo, nodes`pos, nodes`hi
      ensures Inserting(x) && Keys() && nodes == old(nodes) + {x}
      ensures 0 <= x.pos < old(|order|) && order == old(order)[..x.pos] + [x] + old(order)[x.pos..]
    {
      Link(x);
      FixupMaxHigh(x.parent);
      PaintRed(x);
    }

    /** `top` was made black, and its black height counts that. */
    twostate predicate Blackened(top: Node)
      reads this`nodes, nodes`red, nodes`bh
    {
      && nodes == old(nodes)
      && (forall n {:trigger n.red} | n in nodes :: n.red == (n != top && old(n.red)))
      && (forall n {:trigger n.bh} | n in nodes ::
            n.bh == if n == top && old(n.red) then old(n.bh) + 1 else old(n.bh))
    }

    method Blacken(x: Node)
      modifies x`red, x`bh
      ensures Blackened(x) && !x.red && (!old(x.red) ==> x.bh == old(x.bh))
    {
      if x.red {
        x.bh := x.bh + 1;
      }
      x.red := false;
    }

    twostate lemma TopBlackened(x: Node)
      requires old(Inserting(x)) && old(!x.parent.red) && old(root.left) != nil
      requires Blackened(old(root.left)) && nodes == old(nodes) && nil.red == old(nil.red) && nil.bh == old(nil.bh)
      requires forall n {:trigger n.left} | n in nodes :: n.left == old(n.left)
      requires forall n {:trigger n.right} | n in nodes :: n.right == old(n.right)
      ensures Blacks(nil, true) && Reds(nil, nil) && TopBlack(nil)
    {
      var top := old(root.left);
      assert old(ShapeAt(root)) && old(ShapeAt(x)) && old(ShapeAt(top));
      forall n | n in nodes && n != root ensures BlackAt(n, nil, true) {
        assert old(ShapeAt(n)) && old(BlackAt(n, nil, true));
      }
      forall n | n in nodes ensures RedAt(n, nil, nil) {
        assert old(ShapeAt(n)) && old(RedAt(n, nil, x));
      }
    }

    method FinishInsert(ghost x: Node)
      requires Inserting(x) && !x.parent.red
      modifies nodes`red, nodes`bh
      ensures Blacks(nil, true) && Reds(nil, nil) && TopBlack(nil) && SentinelFields()
    {
      assert ShapeAt(root) && ShapeAt(x);
      Blacken(root.left);
      TopBlackened(x);
    }

    method InsertFixup(x0: Node)
      requires Inserting(x0)
      modifies nodes`left, nodes`right, nodes`parent, nodes`maxHigh, nodes`lo, nodes`hi, nodes`red, nodes`bh
      ensures Shape() && MaxHighs() && Blacks(nil, true) && Reds(nil, nil) && TopBlack(nil) && SentinelFields()
    {
      var x := x0;
      while x.parent.red
        invariant Inserting(x)
        decreases if x.parent.red then 1 else 0, |order| - (x.hi - x.lo)
      {
        Grandparent(x);
        if x.parent == x.parent.parent.left {
          x := InsertFixupLeft(x);
        } else {
          x := InsertFixupRight(x);
        }
        assert ShapeAt(x);
      }
      FinishInsert(x);
    }

    method Insert(interval: Interval) returns (node: Node)
      requires Valid() && -MAX_TIME < interval.low <= interval.high
      modifies this`nodes, this`order
      modifies nodes`left, nodes`right, nodes`parent, nodes`maxHigh, nodes`lo, nodes`pos, nodes`hi, nodes`red, nodes`bh
      ensures Valid() && fresh(node) && node.stored == interval && nodes == old(nodes) + {node}
      ensures 0 <= node.pos < old(|order|) && order == old(order)[..node.pos] + [node] + old(order)[node.pos..]
    {
      node := new Node.Of(interval, nil);
      Place(node);
      InsertFixup(node);
    }

    // ------------------------------------------------------------ deletion

    ghost function OnlyChild(y: Node): Node
      reads y
    {
      if y.left == nil then y.right else y.left
    }

    /** `y`, which has at most one child, was cut out; its child took its place. */
    twostate predicate Spliced(y: Node)
      reads this, nodes, nil
    {
      old(y in nodes && y.parent in nodes && 0 <= y.pos < |order|) &&
      var x, q, p := old(OnlyChild(y)), old(y.parent), old(y.pos);
      && nodes == old(nodes) - {y} && q in nodes
      && order == old(order[..p]) + old(order[p + 1..])
      && (x in nodes || x == nil) && x.parent == q
      && (forall n {:trigger n.left} | n in nodes :: n.left == if n == q && old(q.left) == y then x else old(n.left))
      && (forall n {:trigger n.right} | n in nodes :: n.right == if n == q && old(q.left) != y then x else old(n.right))
      && (forall n {:trigger n.parent} | n in nodes :: n.parent == if n == x then q else old(n.parent))
      && (forall n {:trigger n.lo} | n in nodes :: n.lo == if old(n.lo) > p then old(n.lo) - 1 else old(n.lo))
      && (forall n {:trigger n.pos} | n in nodes :: n.pos == if old(n.pos) > p then old(n.pos) - 1 else old(n.pos))
      && (forall n {:trigger n.hi} | n in nodes :: n.hi == if old(n.hi) > p then old(n.hi) - 1 else old(n.hi))
    }

    ghost predicate CanSplice(y: Node)
      reads this, nodes, root, y
    {
      Shape() && y in nodes && y != root && (y.left == nil || y.right == nil) && ShapeAt(y) && ShapeAt(y.parent)
      && y != y.parent && OnlyChild(y) != y && OnlyChild(y) != y.parent
      && (OnlyChild(y) != nil ==> OnlyChild(y) in nodes && ShapeAt(OnlyChild(y)))
    }

    lemma CanSpliceIt(y: Node)
      requires Shape() && y in nodes && y != root && (y.left == nil || y.right == nil)
      ensures CanSplice(y)
    {
      assert ShapeAt(y) && ShapeAt(y.parent) && ShapeAt(root);
      assert OnlyChild(y) != nil ==> ShapeAt(OnlyChild(y));
    }

    /** Renumbers the nodes after position `p` was given up. */
    ghost method CloseGap(p: int)
      modifies nodes`lo, nodes`pos, nodes`hi
      ensures forall n {:trigger n.lo} | n in nodes :: n.lo == if old(n.lo) > p then old(n.lo) - 1 else old(n.lo)
      ensures forall n {:trigger n.pos} | n in nodes :: n.pos == if old(n.pos) > p then old(n.pos) - 1 else old(n.pos)
      ensures forall n {:trigger n.hi} | n in nodes :: n.hi == if old(n.hi) > p then old(n.hi) - 1 else old(n.hi)
    {
      forall n | n in nodes { n.lo := if n.lo > p then n.lo - 1 else n.lo; }
      forall n | n in nodes { n.pos := if n.pos > p then n.pos - 1 else n.pos; }
      forall n | n in nodes { n.hi := if n.hi > p then n.hi - 1 else n.hi; }
    }

    method Splice(y: Node, x: Node)
      requires y in nodes && y.parent in nodes && x == OnlyChild(y) && (x in nodes || x == nil) && nil !in nodes
      requires y != y.parent && x != y && x != y.parent && 0 <= y.pos < |order| && (y.parent == root ==> y == root.left)
      modifies this`nodes, this`order, x`parent, nodes`left, nodes`right, nodes`lo, nodes`pos, nodes`hi
      ensures Spliced(y)
    {
      ghost var p := y.pos;
      x.parent := y.parent;
      if root == x.parent {
        root.left := x;
      } else if y == y.parent.left {
        y.parent.left := x;
      } else {
        y.parent.right := x;
      }
      nodes := nodes - {y};
      CloseGap(p);
      order := order[..p] + order[p + 1..];
    }

    twostate lemma SplicedOrder(y: Node)
      requires old(CanSplice(y)) && Spliced(y)
      ensures |order| == old(|order|) - 1
      ensures forall i | 0 <= i < |order| :: order[i] in nodes && order[i].pos == i
    {
      var p := old(y.pos);
      assert old(order[p]) == y;
      forall i | 0 <= i < |order| ensures order[i] in nodes && order[i].pos == i {
        assert order[i] == if i < p then old(order)[i] else old(order)[i + 1];
      }
    }

    twostate lemma SplicedRange(y: Node)
      requires old(CanSplice(y)) && Spliced(y)
      ensures forall n {:trigger RangeAt(n)} | n in nodes :: RangeAt(n)
    {
      forall n | n in nodes ensures RangeAt(n) {
        assert old(ShapeAt(n));
        assert order[n.pos] == old(order)[old(n.pos)];
      }
    }

    twostate lemma SplicedLeft(y: Node)
      requires old(CanSplice(y)) && Spliced(y)
      ensures forall n {:trigger LeftAt(n)} | n in nodes :: LeftAt(n)
    {
      forall n | n in nodes ensures LeftAt(n) {
        assert old(ShapeAt(n));
        assert old(n.left != nil ==> ShapeAt(n.left));
      }
    }

    twostate lemma SplicedRight(y: Node)
      requires old(CanSplice(y)) && Spliced(y)
      ensures forall n {:trigger RightAt(n)} | n in nodes :: RightAt(n)
    {
      forall n | n in nodes ensures RightAt(n) {
        assert old(ShapeAt(n));
        assert old(n.right != nil ==> ShapeAt(n.right));
      }
    }

    twostate lemma SplicedUp(y: Node)
      requires old(CanSplice(y)) && Spliced(y)
      ensures forall n {:trigger UpAt(n)} | n in nodes :: UpAt(n)
    {
      forall n | n in nodes ensures UpAt(n) {
        assert old(ShapeAt(n));
      }
    }

    twostate lemma SplicedShape(y: Node)
      requires old(CanSplice(y)) && Spliced(y) && root in nodes && nil !in nodes
      ensures Shape()
    {
      assert old(ShapeAt(root));
      SplicedOrder(y);
      SplicedRange(y);
      SplicedLeft(y);
      SplicedRight(y);
      SplicedUp(y);
    }

    twostate lemma SplicedMaxHighs(y: Node)
      requires old(CanSplice(y)) && old(MaxHighs()) && Spliced(y) && nil.maxHigh == old(nil.maxHigh)
      requires forall n {:trigger n.high} | n in nodes :: n.high == old(n.high)
      requires forall n {:trigger n.maxHigh} | n in nodes :: n.maxHigh == old(n.maxHigh)
      ensures forall n {:trigger MaxAt(n)} | n in nodes && n != root && n != old(y.parent) :: MaxAt(n)
    {
      forall n | n in nodes && n != root && n != old(y.parent) ensures MaxAt(n) {
        assert old(ShapeAt(n)) && old(MaxAt(n));
      }
    }

    twostate lemma SplicedBlacks(y: Node)
      requires old(CanSplice(y)) && old(Blacks(nil, true)) && Spliced(y) && nil !in nodes && nil.bh == old(nil.bh) == 0
      requires forall n {:trigger n.red} | n in nodes :: n.red == old(n.red)
      requires forall n {:trigger n.bh} | n in nodes :: n.bh == old(n.bh)
      ensures Blacks(if old(y.red) then nil else old(y.parent), old(y.parent.left == y))
    {
      var q, atLeft := if old(y.red) then nil else old(y.parent), old(y.parent.left == y);
      assert old(BlackAt(y, nil, true));
      assert old(OnlyChild(y)) != nil ==> old(BlackAt(OnlyChild(y), nil, true));
      forall n | n in nodes && n != root ensures BlackAt(n, q, atLeft) {
        assert old(ShapeAt(n)) && old(BlackAt(n, nil, true));
      }
    }

    twostate lemma SplicedReds(y: Node)
      requires old(CanSplice(y)) && old(Reds(nil, nil)) && old(TopBlack(nil)) && Spliced(y)
      requires nil !in nodes && !nil.red && !old(nil.red)
      requires forall n {:trigger n.red} | n in nodes :: n.red == old(n.red)
      ensures var x := old(OnlyChild(y));
        if old(y.red) then Reds(nil, nil) && TopBlack(nil) else Reds(x, x) && TopBlack(x)
    {
      var x := old(OnlyChild(y));
      assert old(ShapeAt(root)) && old(RedAt(y, nil, nil)) && old(RedAt(y.parent, nil, nil));
      forall n | n in nodes ensures if old(y.red) then RedAt(n, nil, nil) else RedAt(n, x, x) {
        assert old(ShapeAt(n)) && old(RedAt(n, nil, nil));
      }
    }

    /** `y`, cut out before, took over the links of the node at its new position. */
    twostate predicate Transplanted(y: Node)
      reads this, nodes, nil
    {
      y in nodes && y !in old(nodes) && y != root && 0 <= y.pos < old(|order|) &&
      var i := y.pos;
      old(order[i] in nodes && order[i].parent in nodes) &&
      var z := old(order[i]); var p := old(z.parent);
      && nodes == old(nodes) - {z} + {y} && order == old(order)[y.pos := y] && p != z && z != root
      && y.left == old(z.left) && y.right == old(z.right) && y.parent == p
      && (forall n {:trigger n.left} | n in nodes && n != y :: n.left == if n == p && old(p.left) == z then y else old(n.left))
      && (forall n {:trigger n.right} | n in nodes && n != y :: n.right == if n == p && old(p.left) != z then y else old(n.right))
      && (forall n {:trigger n.parent} | n in nodes + {nil} && n != y ::
            n.parent == if n == old(z.left) || n == old(z.right) then y else old(n.parent))
    }

    /** `y` took over the colour and the labels as well; nobody else's changed. */
    twostate predicate TransplantedLabels(y: Node)
      reads this, nodes, nil
    {
      y in nodes && y !in old(nodes) && 0 <= y.pos < old(|order|) &&
      var i := y.pos;
      old(order[i] in nodes) &&
      var z := old(order[i]);
      && nodes == old(nodes) - {z} + {y}
      && y.lo == old(z.lo) && y.pos == old(z.pos) && y.hi == old(z.hi) && y.red == old(z.red) && y.bh == old(z.bh)
      && (forall n {:trigger n.lo} | n in nodes && n != y :: n.lo == old(n.lo))
      && (forall n {:trigger n.pos} | n in nodes && n != y :: n.pos == old(n.pos))
      && (forall n {:trigger n.hi} | n in nodes && n != y :: n.hi == old(n.hi))
      && (forall n {:trigger n.red} | n in nodes && n != y :: n.red == old(n.red))
      && (forall n {:trigger n.bh} | n in nodes && n != y :: n.bh == old(n.bh))
      && (forall n {:trigger n.high} | n in nodes :: n.high == old(n.high))
      && (forall n {:trigger n.maxHigh} | n in nodes && n != y :: n.maxHigh == old(n.maxHigh))
      && nil.red == old(nil.red) && nil.bh == old(nil.bh) && nil.maxHigh == old(nil.maxHigh)
    }

    ghost predicate CanTransplant(z: Node, y: Node)
      reads this, nodes, z, root
    {
      && z in nodes && z.parent in nodes && z.parent != z && y !in nodes && y != nil && nil !in nodes && z != root && y != root
      && z.left in nodes && z.left != z && (z.right in nodes || z.right == nil) && z.right != z
      && z.parent != z.left && z.parent != z.right && 0 <= z.pos < |order| && order[z.pos] == z
    }

    method TransplantLinks(z: Node, y: Node)
      requires CanTransplant(z, y) && y.pos == z.pos
      modifies this`nodes, this`order, y`left, y`right, y`parent, nodes`left, nodes`right, nodes`parent, nil`parent
      ensures Transplanted(y) && y.pos == old(z.pos)
    {
      y.left := z.left;
      y.right := z.right;
      y.parent := z.parent;
      z.left.parent := y;
      z.right.parent := y;
      ReplaceChild(z.parent, z, y);
      order := order[z.pos := y];
      nodes := nodes - {z} + {y};
    }

    /** Puts `y` in the place of `z`; the colour of `y` is read before by the caller. */
    method Transplant(z: Node, y: Node)
      requires CanTransplant(z, y)
      modifies this`nodes, this`order, y`maxHigh, y`red, y`lo, y`pos, y`hi, y`bh, y`left, y`right, y`parent
      modifies nodes`left, nodes`right, nodes`parent, nil`parent
      ensures Transplanted(y) && TransplantedLabels(y) && y.pos == old(z.pos)
    {
      y.maxHigh := -MAX_TIME;
      y.red := z.red;
      y.lo, y.pos, y.hi, y.bh := z.lo, z.pos, z.hi, z.bh;
      TransplantLinks(z, y);
    }

    twostate lemma TransplantedRange(y: Node)
      requires old(Shape()) && Transplanted(y) && TransplantedLabels(y)
      ensures forall i | 0 <= i < |order| :: order[i] in nodes && order[i].pos == i
      ensures forall n {:trigger RangeAt(n)} | n in nodes :: RangeAt(n)
    {
      var i := y.pos;
      var z := old(order[i]);
      assert old(ShapeAt(z));
      forall n | n in nodes ensures RangeAt(n) {
        assert n != y ==> old(ShapeAt(n));
      }
    }

    twostate lemma TransplantedLeft(y: Node)
      requires old(Shape()) && Transplanted(y) && TransplantedLabels(y) && nil !in nodes
      ensures forall n {:trigger LeftAt(n)} | n in nodes :: LeftAt(n)
    {
      var i := y.pos;
      var z := old(order[i]);
      assert old(ShapeAt(z)) && old(ShapeAt(z.parent));
      forall n | n in nodes ensures LeftAt(n) {
        assert n != y ==> old(ShapeAt(n));
      }
    }

    twostate lemma TransplantedRight(y: Node)
      requires old(Shape()) && Transplanted(y) && TransplantedLabels(y) && nil !in nodes
      ensures forall n {:trigger RightAt(n)} | n in nodes :: RightAt(n)
    {
      var i := y.pos;
      var z := old(order[i]);
      assert old(ShapeAt(z)) && old(ShapeAt(z.parent));
      forall n | n in nodes ensures RightAt(n) {
        assert n != y ==> old(ShapeAt(n));
      }
    }

    twostate lemma TransplantedUp(y: Node)
      requires old(Shape()) && Transplanted(y) && TransplantedLabels(y) && nil !in nodes
      ensures forall n {:trigger UpAt(n)} | n in nodes :: UpAt(n)
    {
      var i := y.pos;
      var z := old(order[i]);
      assert old(ShapeAt(z)) && old(ShapeAt(z.parent));
      forall n | n in nodes ensures UpAt(n) {
        assert n != y ==> old(ShapeAt(n));
      }
    }

    twostate lemma TransplantedShape(y: Node)
      requires old(Shape()) && Transplanted(y) && TransplantedLabels(y) && nil !in nodes
      ensures Shape()
    {
      TransplantedRange(y);
      TransplantedLeft(y);
      TransplantedRight(y);
      TransplantedUp(y);
    }

    twostate lemma TransplantedMaxHighs(y: Node)
      requires old(Shape()) && Transplanted(y) && TransplantedLabels(y) && nil !in nodes
      ensures forall n {:trigger MaxAt(n)} | n in nodes && n != root && n != y && n != y.parent && old(MaxAt(n)) :: MaxAt(n)
    {
      var i := y.pos;
      var z := old(order[i]);
      assert old(ShapeAt(z)) && old(ShapeAt(z.parent));
      forall n | n in nodes && n != root && n != y && n != y.parent && old(MaxAt(n)) ensures MaxAt(n) {
        assert old(ShapeAt(n));
      }
    }

    twostate lemma TransplantedBlacks(m: Move)
      requires old(Shape()) && Transplanted(m.node) && TransplantedLabels(m.node) && nil !in nodes
      requires old(Blacks(m.short, m.atLeft)) && m.short != m.node
      ensures var i := m.node.pos; Blacks(if m.short == old(order[i]) then m.node else m.short, m.atLeft)
    {
      var i := m.node.pos;
      var z := old(order[i]);
      var q := if m.short == z then m.node else m.short;
      assert old(ShapeAt(z)) && old(ShapeAt(z.parent)) && old(BlackAt(z, m.short, m.atLeft));
      assert BlackAt(m.node, q, m.atLeft);
      forall n | n in nodes && n != root && n != m.node ensures BlackAt(n, q, m.atLeft) {
        assert old(ShapeAt(n)) && old(BlackAt(n, m.short, m.atLeft));
      }
    }

    twostate lemma TransplantedReds(m: Move)
      requires old(Shape()) && Transplanted(m.node) && TransplantedLabels(m.node) && nil !in nodes && !nil.red
      requires old(Reds(m.child, m.child)) && old(TopBlack(m.child)) && m.child in old(nodes) + {nil}
      requires var i := m.node.pos; m.child != old(order[i])
      ensures Reds(m.child, m.child) && TopBlack(m.child)
    {
      var i := m.node.pos;
      var z := old(order[i]);
      assert old(ShapeAt(z)) && old(ShapeAt(z.parent)) && old(ShapeAt(root));
      assert old(RedAt(z, m.child, m.child)) && old(RedAt(z.parent, m.child, m.child));
      forall n | n in nodes ensures RedAt(n, m.child, m.child) {
        assert n != m.node ==> old(ShapeAt(n)) && old(RedAt(n, m.child, m.child));
      }
    }

    twostate lemma SplicedKeys(y: Node)
      requires old(CanSplice(y)) && old(Keys()) && Spliced(y) && root in nodes && root.pos == |order| - 1
      requires forall n {:trigger n.key} | n in nodes :: n.key == old(n.key)
      requires forall n {:trigger n.stored} | n in nodes :: n.stored == old(n.stored)
      requires forall n {:trigger n.high} | n in nodes :: n.high == old(n.high)
      ensures Keys()
    {
      var p := old(y.pos);
      SplicedOrder(y);
      assert old(ShapeAt(root));
      forall i, j | 0 <= i < j < |order| - 1 ensures order[i].key <= order[j].key {
        assert order[i] == if i < p then old(order)[i] else old(order)[i + 1];
        assert order[j] == if j < p then old(order)[j] else old(order)[j + 1];
      }
    }

    /**
     * A node was cut out and `x` took its place below `x.parent`: what is left to do is to repair
     * `maxHigh` from there upwards and, if the lost node was black, the black heights.
     */
    ghost predicate Cut(x: Node, black: bool, atLeft: bool)
      reads this`nodes, this`order, nodes, root, nil, x
    {
      && Shape() && Keys() && SentinelFields()
      && (x in nodes || x == nil) && x.parent in nodes && x == (if atLeft then x.parent.left else x.parent.right)
      && (x.parent == root ==> x == root.left)
      && MaxHighsBut(x.parent) && Blacks(if black then x.parent else nil, atLeft)
      && Reds(if black then x else nil, if black then x else nil) && TopBlack(if black then x else nil)
    }

    /** All of the above for the node `y`, which was cut out. */
    twostate lemma SplicedCut(y: Node)
      requires old(Valid()) && old(CanSplice(y)) && Spliced(y) && root in nodes && nil !in nodes && SentinelFields()
      requires forall n {:trigger n.key} | n in nodes :: n.key == old(n.key)
      requires forall n {:trigger n.stored} | n in nodes :: n.stored == old(n.stored)
      requires forall n {:trigger n.high} | n in nodes :: n.high == old(n.high)
      requires forall n {:trigger n.maxHigh} | n in nodes :: n.maxHigh == old(n.maxHigh)
      requires forall n {:trigger n.red} | n in nodes :: n.red == old(n.red)
      requires forall n {:trigger n.bh} | n in nodes :: n.bh == old(n.bh)
      ensures Cut(old(OnlyChild(y)), old(!y.red), old(y.parent.left == y))
    {
      SplicedShape(y);
      SplicedKeys(y);
      SplicedMaxHighs(y);
      SplicedBlacks(y);
      SplicedReds(y);
      assert old(ShapeAt(root));
    }

    method SpliceOut(y: Node, x: Node)
      requires Valid() && y in nodes && y != root && (y.left == nil || y.right == nil) && x == OnlyChild(y)
      modifies this`nodes, this`order, x`parent, nodes`left, nodes`right, nodes`lo, nodes`pos, nodes`hi
      ensures Spliced(y) && Cut(x, !y.red, old(y.parent.left == y))
    {
      CanSpliceIt(y);
      assert ShapeAt(root);
      Splice(y, x);
      SplicedCut(y);
    }

    /** `z` is ready to be replaced by `y`, which was cut out of the right subtree of `z`. */
    ghost predicate CutBelow(z: Node, y: Node, x: Node, black: bool, atLeft: bool)
      reads this`nodes, this`order, nodes, root, nil, x, z, y
    {
      && Cut(x, black, atLeft) && z in nodes && z != root && y !in nodes && y != nil && y != x && x != z
      && z.left != nil && Above(z, x.parent) && (z.right == nil ==> x == nil && x.parent == z)
      && (x == nil && x.parent != z ==> z.right != nil)
      && y.stored != null && y.key == y.stored.low && y.high == y.stored.high && -MAX_TIME < y.key <= y.high
      && 0 <= z.pos < |order| && (forall i | 0 <= i < z.pos :: order[i] in nodes && order[i].key <= y.key)
      && (forall i | z.pos < i < |order| - 1 :: order[i] in nodes && y.key <= order[i].key)
    }

    twostate lemma TransplantedKeys(y: Node)
      requires old(Shape()) && old(Keys()) && Transplanted(y) && TransplantedLabels(y)
      requires y.stored != null && y.key == y.stored.low && y.high == y.stored.high && -MAX_TIME < y.key <= y.high
      requires forall n {:trigger n.key} | n in nodes && n != y :: n.key == old(n.key)
      requires forall n {:trigger n.stored} | n in nodes && n != y :: n.stored == old(n.stored)
      requires forall i | 0 <= i < y.pos :: old(order[i].key) <= y.key
      requires forall i | y.pos < i < old(|order|) - 1 :: y.key <= old(order[i].key)
      ensures Keys()
    {
      TransplantedRange(y);
      forall i, j | 0 <= i < j < |order| - 1 ensures order[i].key <= order[j].key {
        assert i != y.pos ==> order[i] == old(order)[i] && order[i] != y;
        assert j != y.pos ==> order[j] == old(order)[j] && order[j] != y;
      }
    }

    twostate lemma TransplantedMaxHighsBut(m: Move)
      requires Transplanted(m.node) && TransplantedLabels(m.node) && nil !in nodes && Shape()
      requires var i := m.node.pos; old(CutBelow(order[i], m.node, m.child, m.black, m.atLeft))
      ensures var i := m.node.pos; m.child.parent == if old(m.child.parent) == old(order[i]) then m.node else old(m.child.parent)
      ensures m.child.parent in nodes && MaxHighsBut(m.child.parent)
    {
      var y, x, q, i := m.node, m.child, old(m.child.parent), m.node.pos;
      var z := old(order[i]);
      assert old(ShapeAt(z)) && old(ShapeAt(q)) && old(ShapeAt(root));
      TransplantedMaxHighs(y);
      assert ShapeAt(y) && ShapeAt(y.parent) && Above(y, x.parent) && Above(y.parent, x.parent);
      forall n | n in nodes && n != root && !Above(n, x.parent) ensures MaxAt(n) {
        assert !old(Above(n, q));
      }
    }

    /** All of the above for the node `m.node`, which replaced another one. */
    twostate lemma TransplantedCut(m: Move)
      requires Transplanted(m.node) && TransplantedLabels(m.node) && nil !in nodes && SentinelFields()
      requires m.black ==> m.short == old(m.child.parent)
      requires !m.black ==> m.short == nil
      requires var i := m.node.pos; old(CutBelow(order[i], m.node, m.child, m.black, m.atLeft))
      requires forall n {:trigger n.key} | n in nodes :: n.key == old(n.key)
      requires forall n {:trigger n.stored} | n in nodes :: n.stored == old(n.stored)
      ensures Cut(m.child, m.black, m.atLeft)
    {
      var y, x, q, i := m.node, m.child, old(m.child.parent), m.node.pos;
      var z := old(order[i]);
      assert old(ShapeAt(z)) && old(ShapeAt(z.parent)) && old(ShapeAt(root)) && old(ShapeAt(q));
      TransplantedShape(y);
      TransplantedKeys(y);
      TransplantedBlacks(m);
      TransplantedReds(if m.black then m else m.(child := nil));
      TransplantedMaxHighsBut(m);
    }

    method TransplantOver(z: Node, y: Node, x: Node, ghost black: bool, ghost atLeft: bool)
      requires CutBelow(z, y, x, black, atLeft)
      modifies this`nodes, this`order, y`maxHigh, y`red, y`lo, y`pos, y`hi, y`bh, y`left, y`right, y`parent
      modifies nodes`left, nodes`right, nodes`parent, nil`parent
      ensures Cut(x, black, atLeft) && nodes == old(nodes) - {z} + {y} && 0 <= old(z.pos) < |old(order)|
      ensures order == old(order)[old(z.pos) := y]
    {
      assert ShapeAt(z) && ShapeAt(z.parent);
      ghost var q := x.parent;
      Transplant(z, y);
      TransplantedCut(Move(y, x, if black then q else nil, black, atLeft));
    }

    /** The leftmost node of the subtree of `x0`. */
    method GetMinimum(x0: Node) returns (x: Node)
      requires Shape() && x0 in nodes
      ensures x in nodes && x.left == nil && x.pos == x0.lo
    {
      x := x0;
      while x.left != nil
        invariant x in nodes && ShapeAt(x) && x.lo == x0.lo
        decreases x.pos
      {
        assert ShapeAt(x.left);
        x := x.left;
      }
    }

    /** The next node in in-order; the root sentinel comes after the last one. */
    method GetSuccessor(x0: Node) returns (y: Node)
      requires Shape() && x0 in nodes && x0 != root
      ensures y in nodes && 0 < y.pos == x0.pos + 1 < |order| && y == order[y.pos]
      ensures x0.right != nil ==> y.left == nil && y != root && Above(x0, y)
    {
      assert ShapeAt(x0) && ShapeAt(root);
      BelowRoot(x0);
      if nil != x0.right {
        assert ShapeAt(x0.right);
        y := GetMinimum(x0.right);
        BelowRoot(x0);
      } else {
        var x := x0;
        y := x.parent;
        while y != nil && x == y.right
          invariant x in nodes && x != root && ShapeAt(x) && y == x.parent && x.hi == x0.pos + 1
          decreases |order| - (x.hi - x.lo)
        {
          assert ShapeAt(y);
          BelowRoot(x);
          x := y;
          y := y.parent;
        }
        assert ShapeAt(y);
      }
      assert ShapeAt(y);
    }

    /** Preconditions of the step from `SpliceOut` to `TransplantOver` for the replaced node `m.short`. */
    ghost predicate Successor(z: Node, y: Node)
      reads this`nodes, this`order, nodes, root, nil
    {
      && z in nodes && y in nodes && z != root && y != root && y.parent in nodes && z.left != nil && z.right != nil
      && 0 < y.pos == z.pos + 1 < |order| && order[z.pos] == z && order[y.pos] == y && Above(z, y) && Above(z, y.parent) && y.left == nil
    }

    twostate lemma SplicedSuccessorKeys(m: Move)
      requires old(Valid()) && old(Successor(m.short, m.node)) && Spliced(m.node)
      requires forall n {:trigger n.key} | n in old(nodes) :: n.key == old(n.key)
      ensures m.short.pos == old(m.short.pos)
      ensures forall i | 0 <= i < m.short.pos :: order[i] in nodes && order[i].key <= m.node.key
      ensures forall i | m.short.pos < i < |order| - 1 :: order[i] in nodes && m.node.key <= order[i].key
    {
      var z, y, p := m.short, m.node, old(m.node.pos);
      assert old(ShapeAt(z)) && old(ShapeAt(y)) && old(ShapeAt(root));
      forall i | 0 <= i < |order| - 1 && i != z.pos
        ensures order[i] in nodes && if i < z.pos then order[i].key <= y.key else y.key <= order[i].key
      {
        assert order[i] == if i < p then old(order)[i] else old(order)[i + 1];
      }
    }

    twostate lemma CutBelowReady(m: Move)
      requires old(Valid()) && old(Successor(m.short, m.node)) && Spliced(m.node)
      requires m.child == old(OnlyChild(m.node)) && Cut(m.child, m.black, m.atLeft)
      requires unchanged(m.node`stored, m.node`key, m.node`high)
      requires forall n {:trigger n.key} | n in old(nodes) :: n.key == old(n.key)
      ensures CutBelow(m.short, m.node, m.child, m.black, m.atLeft)
    {
      var z, y, x, q := m.short, m.node, m.child, old(m.node.parent);
      assert old(ShapeAt(z)) && old(ShapeAt(y)) && old(ShapeAt(z.left)) && old(ShapeAt(q)) && old(ShapeAt(root));
      SplicedSuccessorKeys(m);
    }

    lemma SpliceThenReplace(s: seq<Node>, p: int)
      requires 0 < p < |s|
      ensures (s[..p] + s[p + 1..])[p - 1 := s[p]] == s[..p - 1] + s[p..]
    {
    }

    /** Cuts the successor `y` of `z` out. */
    method CutSuccessor(z: Node, y: Node, x: Node) returns (ghost atLeft: bool)
      requires Valid() && Successor(z, y) && x == OnlyChild(y)
      modifies this`nodes, this`order, x`parent, nodes`left, nodes`right, nodes`lo, nodes`pos, nodes`hi
      ensures CutBelow(z, y, x, !y.red, atLeft) && nodes == old(nodes) - {y} && z.pos == old(z.pos)
      ensures order == old(order[..y.pos] + order[y.pos + 1..])
    {
      atLeft := y.parent.left == y;
      SpliceOut(y, x);
      CutBelowReady(Move(y, x, z, !y.red, atLeft));
    }

    /** Removes `z`, which has two children, by moving its successor into its place. */
    method CutInner(z: Node, y: Node, x: Node) returns (ghost atLeft: bool)
      requires Valid() && Successor(z, y) && x == OnlyChild(y)
      modifies this`nodes, this`order, x`parent, nil`parent, nodes`left, nodes`right, nodes`parent
      modifies nodes`lo, nodes`pos, nodes`hi, nodes`maxHigh, nodes`red, nodes`bh
      ensures Cut(x, old(!y.red), atLeft) && nodes == old(nodes) - {z}
      ensures order == old(order[..z.pos]) + old(order[z.pos + 1..])
    {
      SpliceThenReplace(order, y.pos);
      ghost var black := !y.red;
      atLeft := CutSuccessor(z, y, x);
      TransplantOver(z, y, x, black, atLeft);
    }

    /** Holds while `DeleteFixup` repairs the black heights: the subtree of `x` lacks one black node. */
    ghost predicate Deleting(x: Node, atLeft: bool)
      reads this`nodes, this`order, nodes, root, nil, x
    {
      && Shape() && MaxHighs() && SentinelFields()
      && (x in nodes || x == nil) && x.parent in nodes && x == (if atLeft then x.parent.left else x.parent.right)
      && (x.parent == root ==> x == root.left)
      && Blacks(x.parent, atLeft) && Reds(x, x) && TopBlack(x)
    }

    ghost predicate Repaired()
      reads this`nodes, this`order, nodes, root, nil
    {
      Shape() && MaxHighs() && SentinelFields() && Blacks(nil, true) && Reds(nil, nil) && TopBlack(nil)
    }

    /** The neighbourhood of a black left child `x` that lacks a black node: its sibling is a real node. */
    ghost predicate LeftShort(x: Node)
      reads this`nodes, this`order, nodes, root, nil, x
    {
      Deleting(x, true) && !x.red && x.parent != root &&
      var q := x.parent; var w := q.right;
      && w in nodes && w != root && w != x && w != q && q != x && w.parent == q && q.left == x
      && q.parent in nodes && q.parent != q && q.parent != w && Kids(w) && Kids(q)
      && w.left != q && w.right != q && w.left != w && w.right != w && (x in nodes ==> w.left != x && w.right != x)
      && ShapeAt(q) && ShapeAt(w) && ShapeAt(q.parent) && BlackAt(q, q, true) && BlackAt(w, q, true)
      && (w.left in nodes ==> w.left != root && ShapeAt(w.left) && BlackAt(w.left, q, true))
      && (w.right in nodes ==> w.right != root && ShapeAt(w.right) && BlackAt(w.right, q, true))
      && RedAt(q, x, x) && RedAt(w, x, x)
      && (w.left in nodes || w.right in nodes ==> w.left != w.right)
      && LeftRotatable(q, w, w.left, q.parent)
    }

    lemma LeftShortIn(x: Node)
      requires Deleting(x, true) && !x.red && x.parent != root
      ensures LeftShort(x)
    {
      var q := x.parent;
      assert ShapeAt(q) && BlackAt(q, q, true) && RedAt(q, x, x);
      assert x in nodes ==> ShapeAt(x) && BlackAt(x, q, true);
      assert q.right != nil && q.right in nodes;
      var w := q.right;
      assert ShapeAt(w) && BlackAt(w, q, true) && RedAt(w, x, x) && ShapeAt(q.parent) && ShapeAt(root);
      assert w.left in nodes ==> ShapeAt(w.left) && BlackAt(w.left, q, true);
      assert w.right in nodes ==> ShapeAt(w.right) && BlackAt(w.right, q, true);
      LeftRotatableIn(q);
    }

    /** The neighbourhood of a black right child `x` that lacks a black node: its sibling is a real node. */
    ghost predicate RightShort(x: Node)
      reads this`nodes, this`order, nodes, root, nil, x
    {
      Deleting(x, false) && !x.red && x.parent != root &&
      var q := x.parent; var w := q.left;
      && w in nodes && w != root && w != x && w != q && q != x && w.parent == q && q.right == x
      && q.parent in nodes && q.parent != q && q.parent != w && Kids(w) && Kids(q)
      && w.right != q && w.left != q && w.right != w && w.left != w && (x in nodes ==> w.right != x && w.left != x)
      && ShapeAt(q) && ShapeAt(w) && ShapeAt(q.parent) && BlackAt(q, q, false) && BlackAt(w, q, false)
      && (w.right in nodes ==> w.right != root && ShapeAt(w.right) && BlackAt(w.right, q, false))
      && (w.left in nodes ==> w.left != root && ShapeAt(w.left) && BlackAt(w.left, q, false))
      && RedAt(q, x, x) && RedAt(w, x, x)
      && (w.right in nodes || w.left in nodes ==> w.right != w.left)
      && RightRotatable(q, w, w.right, q.parent)
    }

    lemma RightShortIn(x: Node)
      requires Deleting(x, false) && !x.red && x.parent != root
      ensures RightShort(x)
    {
      var q := x.parent;
      assert ShapeAt(q) && BlackAt(q, q, false) && RedAt(q, x, x);
      assert x in nodes ==> ShapeAt(x) && BlackAt(x, q, false);
      assert q.left != nil && q.left in nodes;
      var w := q.left;
      assert ShapeAt(w) && BlackAt(w, q, false) && RedAt(w, x, x) && ShapeAt(q.parent) && ShapeAt(root);
      assert w.right in nodes ==> ShapeAt(w.right) && BlackAt(w.right, q, false);
      assert w.left in nodes ==> ShapeAt(w.left) && BlackAt(w.left, q, false);
      RightRotatableIn(q);
    }

    // The cases of `DeleteFixup` for a left child `x` with parent q and sibling w.

    /** The sibling is red: it moves up and becomes black, the parent becomes red. */
    twostate predicate LeftCase1(x: Node)
      reads this, nodes, nil, x
    {
      && var q, w := old(x.parent), old(x.parent.right);
      && LeftRotated(q) && LeftRotatedMaxHigh(q) && x.parent == q
      && nil.red == old(nil.red) && nil.bh == old(nil.bh)
      && (forall n {:trigger n.red} | n in nodes :: n.red == if n == w then false else n == q || old(n.red))
      && (forall n {:trigger n.bh} | n in nodes :: n.bh == if n == w then old(n.bh) + 1 else if n == q then old(n.bh) - 1 else old(n.bh))
    }

    method LeftDoCase1(x: Node, w: Node)
      requires LeftShort(x) && w == x.parent.right && w.red
      modifies nodes`left, nodes`right, nodes`parent, nodes`maxHigh, nodes`lo, nodes`hi, nodes`red, nodes`bh
      ensures LeftCase1(x)
    {
      w.red := false;
      x.parent.red := true;
      w.bh, x.parent.bh := w.bh + 1, x.parent.bh - 1;
      LeftRotate(x.parent);
    }

    twostate lemma LeftCase1Blacks(x: Node)
      requires old(LeftShort(x)) && old(x.parent.right.red) && LeftCase1(x)
      ensures Blacks(old(x.parent), true)
    {
      var q, w := old(x.parent), old(x.parent.right);
      forall n | n in nodes && n != root ensures BlackAt(n, q, true) {
        assert old(ShapeAt(n)) && old(BlackAt(n, q, true));
      }
    }

    twostate lemma LeftCase1Reds(x: Node)
      requires old(LeftShort(x)) && old(x.parent.right.red) && LeftCase1(x)
      ensures Reds(x, x) && TopBlack(x)
    {
      var q, w := old(x.parent), old(x.parent.right);
      assert old(ShapeAt(root));
      forall n | n in nodes ensures RedAt(n, x, x) {
        assert old(ShapeAt(n)) && old(RedAt(n, x, x));
      }
    }

    /** The sibling and both its children are black: it becomes red and the shortage moves up. */
    twostate predicate LeftCase2(x: Node)
      reads this, nodes, nil, x
    {
      && var q, w := old(x.parent), old(x.parent.right);
      && SameLinks() && SameMaxHighs() && x.parent == q
      && nil.red == old(nil.red) && nil.bh == old(nil.bh)
      && (forall n {:trigger n.red} | n in nodes :: n.red == (n == w || old(n.red)))
      && (forall n {:trigger n.bh} | n in nodes :: n.bh == if n == w || n == q then old(n.bh) - 1 else old(n.bh))
    }

    method LeftDoCase2(x: Node, w: Node)
      requires LeftShort(x) && w == x.parent.right && !w.red && !w.left.red && !w.right.red
      modifies nodes`red, nodes`bh
      ensures LeftCase2(x)
    {
      w.red := true;
      w.bh, x.parent.bh := w.bh - 1, x.parent.bh - 1;
    }

    twostate lemma LeftCase2Blacks(x: Node)
      requires old(LeftShort(x)) && old(!x.parent.right.red && !x.parent.right.left.red && !x.parent.right.right.red) && LeftCase2(x)
      ensures var q := old(x.parent); Blacks(q.parent, q == q.parent.left)
    {
      var q, w := old(x.parent), old(x.parent.right);
      forall n | n in nodes && n != root ensures BlackAt(n, q.parent, q == q.parent.left) {
        assert old(ShapeAt(n)) && old(BlackAt(n, q, true));
      }
    }

    twostate lemma LeftCase2Reds(x: Node)
      requires old(LeftShort(x)) && old(!x.parent.right.red && !x.parent.right.left.red && !x.parent.right.right.red) && LeftCase2(x)
      ensures Reds(old(x.parent), old(x.parent)) && TopBlack(old(x.parent))
    {
      var q, w := old(x.parent), old(x.parent.right);
      assert old(ShapeAt(root));
      forall n | n in nodes ensures RedAt(n, q, q) {
        assert old(ShapeAt(n)) && old(RedAt(n, x, x));
      }
    }

    /** Only the near nephew is red: it moves up between the parent and the sibling. */
    twostate predicate LeftCase3(x: Node)
      reads this, nodes, nil, x
    {
      && var q, w := old(x.parent), old(x.parent.right);
      && RightRotated(w) && RightRotatedMaxHigh(w) && x.parent == q
      && nil.red == old(nil.red) && nil.bh == old(nil.bh)
      && (forall n {:trigger n.red} | n in nodes :: n.red == if n == old(w.left) then false else n == w || old(n.red))
      && (forall n {:trigger n.bh} | n in nodes :: n.bh == if n == w then old(n.bh) - 1 else if n == old(w.left) then old(n.bh) + 1 else old(n.bh))
    }

    method LeftDoCase3(x: Node, w: Node)
      requires LeftShort(x) && w == x.parent.right && !w.red && w.left.red && !w.right.red
      requires RightRotatable(w, w.left, w.left.right, x.parent)
      modifies nodes`left, nodes`right, nodes`parent, nodes`maxHigh, nodes`lo, nodes`hi, nodes`red, nodes`bh
      ensures LeftCase3(x)
    {
      w.left.red := false;
      w.red := true;
      w.left.bh, w.bh := w.left.bh + 1, w.bh - 1;
      RightRotate(w);
    }

    twostate lemma LeftCase3Blacks(x: Node)
      requires old(LeftShort(x)) && old(!x.parent.right.red && x.parent.right.left.red && !x.parent.right.right.red) && LeftCase3(x)
      ensures Blacks(old(x.parent), true)
    {
      var q, w := old(x.parent), old(x.parent.right);
      forall n | n in nodes && n != root ensures BlackAt(n, q, true) {
        assert old(ShapeAt(n)) && old(BlackAt(n, q, true));
      }
    }

    twostate lemma LeftCase3Reds(x: Node)
      requires old(LeftShort(x)) && old(!x.parent.right.red && x.parent.right.left.red && !x.parent.right.right.red) && LeftCase3(x)
      ensures Reds(x, x) && TopBlack(x)
    {
      var q, w := old(x.parent), old(x.parent.right);
      assert old(ShapeAt(root)) && old(RedAt(w.left, x, x));
      forall n | n in nodes ensures RedAt(n, x, x) {
        assert old(ShapeAt(n)) && old(RedAt(n, x, x));
      }
    }

    /** The far nephew is red: the sibling moves up, which makes good the missing black node. */
    twostate predicate LeftCase4(x: Node)
      reads this, nodes, nil, x
    {
      && var q, w := old(x.parent), old(x.parent.right);
      && LeftRotated(q) && LeftRotatedMaxHigh(q) && x.parent == q
      && nil.red == old(nil.red) && nil.bh == old(nil.bh)
      && (forall n {:trigger n.red} | n in nodes :: n.red == if n == q || n == old(w.right) then false else if n == w then old(q.red) else old(n.red))
      && (forall n {:trigger n.bh} | n in nodes :: n.bh == if n == q then x.bh + 1 else if n == w then old(q.bh) else if n == old(w.right) then old(n.bh) + 1 else old(n.bh))
    }

    method LeftDoCase4(x: Node, w: Node)
      requires x.parent in nodes && w == x.parent.right && LeftRotatable(x.parent, w, w.left, x.parent.parent)
      requires w.right in nodes && w.right != x.parent && w.right != w && x != x.parent && x != w && x != w.right
      modifies nodes`left, nodes`right, nodes`parent, nodes`maxHigh, nodes`lo, nodes`hi, nodes`red, nodes`bh
      ensures LeftCase4(x)
    {
      ghost var q, r := x.parent, w.right;
      w.red := x.parent.red;
      x.parent.red := false;
      w.right.red := false;
      w.bh, q.bh, r.bh := q.bh, x.bh + 1, r.bh + 1;
      LeftRotate(x.parent);
    }

    twostate lemma LeftCase4Blacks(x: Node)
      requires old(LeftShort(x)) && old(!x.parent.right.red && x.parent.right.right.red) && LeftCase4(x)
      ensures Blacks(nil, true)
    {
      var q, w := old(x.parent), old(x.parent.right);
      forall n | n in nodes && n != root ensures BlackAt(n, nil, true) {
        assert old(ShapeAt(n)) && old(BlackAt(n, q, true));
      }
    }

    twostate lemma LeftCase4Reds(x: Node)
      requires old(LeftShort(x)) && old(!x.parent.right.red && x.parent.right.right.red) && LeftCase4(x)
      ensures Reds(nil, nil) && TopBlack(nil)
    {
      var q, w := old(x.parent), old(x.parent.right);
      assert old(ShapeAt(root));
      forall n | n in nodes ensures RedAt(n, nil, nil) {
        assert old(ShapeAt(n)) && old(RedAt(n, x, x));
      }
    }

    // The cases of `DeleteFixup` for a right child `x` with parent q and sibling w.

    /** The sibling is red: it moves up and becomes black, the parent becomes red. */
    twostate predicate RightCase1(x: Node)
      reads this, nodes, nil, x
    {
      && var q, w := old(x.parent), old(x.parent.left);
      && RightRotated(q) && RightRotatedMaxHigh(q) && x.parent == q
      && nil.red == old(nil.red) && nil.bh == old(nil.bh)
      && (forall n {:trigger n.red} | n in nodes :: n.red == if n == w then false else n == q || old(n.red))
      && (forall n {:trigger n.bh} | n in nodes :: n.bh == if n == w then old(n.bh) + 1 else if n == q then old(n.bh) - 1 else old(n.bh))
    }

    method RightDoCase1(x: Node, w: Node)
      requires RightShort(x) && w == x.parent.left && w.red
      modifies nodes`right, nodes`left, nodes`parent, nodes`maxHigh, nodes`lo, nodes`hi, nodes`red, nodes`bh
      ensures RightCase1(x)
    {
      w.red := false;
      x.parent.red := true;
      w.bh, x.parent.bh := w.bh + 1, x.parent.bh - 1;
      RightRotate(x.parent);
    }

    twostate lemma RightCase1Blacks(x: Node)
      requires old(RightShort(x)) && old(x.parent.left.red) && RightCase1(x)
      ensures Blacks(old(x.parent), false)
    {
      var q, w := old(x.parent), old(x.parent.left);
      forall n | n in nodes && n != root ensures BlackAt(n, q, false) {
        assert old(ShapeAt(n)) && old(BlackAt(n, q, false));
      }
    }

    twostate lemma RightCase1Reds(x: Node)
      requires old(RightShort(x)) && old(x.parent.left.red) && RightCase1(x)
      ensures Reds(x, x) && TopBlack(x)
    {
      var q, w := old(x.parent), old(x.parent.left);
      assert old(ShapeAt(root));
      forall n | n in nodes ensures RedAt(n, x, x) {
        assert old(ShapeAt(n)) && old(RedAt(n, x, x));
      }
    }

    /** The sibling and both its children are black: it becomes red and the shortage moves up. */
    twostate predicate RightCase2(x: Node)
      reads this, nodes, nil, x
    {
      && var q, w := old(x.parent), old(x.parent.left);
      && SameLinks() && SameMaxHighs() && x.parent == q
      && nil.red == old(nil.red) && nil.bh == old(nil.bh)
      && (forall n {:trigger n.red} | n in nodes :: n.red == (n == w || old(n.red)))
      && (forall n {:trigger n.bh} | n in nodes :: n.bh == if n == w || n == q then old(n.bh) - 1 else old(n.bh))
    }

    method RightDoCase2(x: Node, w: Node)
      requires RightShort(x) && w == x.parent.left && !w.red && !w.right.red && !w.left.red
      modifies nodes`red, nodes`bh
      ensures RightCase2(x)
    {
      w.red := true;
      w.bh, x.parent.bh := w.bh - 1, x.parent.bh - 1;
    }

    twostate lemma RightCase2Blacks(x: Node)
      requires old(RightShort(x)) && old(!x.parent.left.red && !x.parent.left.right.red && !x.parent.left.left.red) && RightCase2(x)
      ensures var q := old(x.parent); Blacks(q.parent, q == q.parent.left)
    {
      var q, w := old(x.parent), old(x.parent.left);
      forall n | n in nodes && n != root ensures BlackAt(n, q.parent, q == q.parent.left) {
        assert old(ShapeAt(n)) && old(BlackAt(n, q, false));
      }
    }

    twostate lemma RightCase2Reds(x: Node)
      requires old(RightShort(x)) && old(!x.parent.left.red && !x.parent.left.right.red && !x.parent.left.left.red) && RightCase2(x)
      ensures Reds(old(x.parent), old(x.parent)) && TopBlack(old(x.parent))
    {
      var q, w := old(x.parent), old(x.parent.left);
      assert old(ShapeAt(root));
      forall n | n in nodes ensures RedAt(n, q, q) {
        assert old(ShapeAt(n)) && old(RedAt(n, x, x));
      }
    }

    /** Only the near nephew is red: it moves up between the parent and the sibling. */
    twostate predicate RightCase3(x: Node)
      reads this, nodes, nil, x
    {
      && var q, w := old(x.parent), old(x.parent.left);
      && LeftRotated(w) && LeftRotatedMaxHigh(w) && x.parent == q
      && nil.red == old(nil.red) && nil.bh == old(nil.bh)
      && (forall n {:trigger n.red} | n in nodes :: n.red == if n == old(w.right) then false else n == w || old(n.red))
      && (forall n {:trigger n.bh} | n in nodes :: n.bh == if n == w then old(n.bh) - 1 else if n == old(w.right) then old(n.bh) + 1 else old(n.bh))
    }

    method RightDoCase3(x: Node, w: Node)
      requires RightShort(x) && w == x.parent.left && !w.red && w.right.red && !w.left.red
      requires LeftRotatable(w, w.right, w.right.left, x.parent)
      modifies nodes`right, nodes`left, nodes`parent, nodes`maxHigh, nodes`lo, nodes`hi, nodes`red, nodes`bh
      ensures RightCase3(x)
    {
      w.right.red := false;
      w.red := true;
      w.right.bh, w.bh := w.right.bh + 1, w.bh - 1;
      LeftRotate(w);
    }

    twostate lemma RightCase3Blacks(x: Node)
      requires old(RightShort(x)) && old(!x.parent.left.red && x.parent.left.right.red && !x.parent.left.left.red) && RightCase3(x)
      ensures Blacks(old(x.parent), false)
    {
      var q, w := old(x.parent), old(x.parent.left);
      forall n | n in nodes && n != root ensures BlackAt(n, q, false) {
        assert old(ShapeAt(n)) && old(BlackAt(n, q, false));
      }
    }

    twostate lemma RightCase3Reds(x: Node)
      requires old(RightShort(x)) && old(!x.parent.left.red && x.parent.left.right.red && !x.parent.left.left.red) && RightCase3(x)
      ensures Reds(x, x) && TopBlack(x)
    {
      var q, w := old(x.parent), old(x.parent.left);
      assert old(ShapeAt(root)) && old(RedAt(w.right, x, x));
      forall n | n in nodes ensures RedAt(n, x, x) {
        assert old(ShapeAt(n)) && old(RedAt(n, x, x));
      }
    }

    /** The far nephew is red: the sibling moves up, which makes good the missing black node. */
    twostate predicate RightCase4(x: Node)
      reads this, nodes, nil, x
    {
      && var q, w := old(x.parent), old(x.parent.left);
      && RightRotated(q) && RightRotatedMaxHigh(q) && x.parent == q
      && nil.red == old(nil.red) && nil.bh == old(nil.bh)
      && (forall n {:trigger n.red} | n in nodes :: n.red == if n == q || n == old(w.left) then false else if n == w then old(q.red) else old(n.red))
      && (forall n {:trigger n.bh} | n in nodes :: n.bh == if n == q then x.bh + 1 else if n == w then old(q.bh) else if n == old(w.left) then old(n.bh) + 1 else old(n.bh))
    }

    method RightDoCase4(x: Node, w: Node)
      requires x.parent in nodes && w == x.parent.left && RightRotatable(x.parent, w, w.right, x.parent.parent)
      requires w.left in nodes && w.left != x.parent && w.left != w && x != x.parent && x != w && x != w.left
      modifies nodes`right, nodes`left, nodes`parent, nodes`maxHigh, nodes`lo, nodes`hi, nodes`red, nodes`bh
      ensures RightCase4(x)
    {
      ghost var q, r := x.parent, w.left;
      w.red := x.parent.red;
      x.parent.red := false;
      w.left.red := false;
      w.bh, q.bh, r.bh := q.bh, x.bh + 1, r.bh + 1;
      RightRotate(x.parent);
    }

    twostate lemma RightCase4Blacks(x: Node)
      requires old(RightShort(x)) && old(!x.parent.left.red && x.parent.left.left.red) && RightCase4(x)
      ensures Blacks(nil, true)
    {
      var q, w := old(x.parent), old(x.parent.left);
      forall n | n in nodes && n != root ensures BlackAt(n, nil, true) {
        assert old(ShapeAt(n)) && old(BlackAt(n, q, false));
      }
    }

    twostate lemma RightCase4Reds(x: Node)
      requires old(RightShort(x)) && old(!x.parent.left.red && x.parent.left.left.red) && RightCase4(x)
      ensures Reds(nil, nil) && TopBlack(nil)
    {
      var q, w := old(x.parent), old(x.parent.left);
      assert old(ShapeAt(root));
      forall n | n in nodes ensures RedAt(n, nil, nil) {
        assert old(ShapeAt(n)) && old(RedAt(n, x, x));
      }
    }

    ghost predicate TopOrRed(t: Node, x: Node)
      reads t, x, root
    {
      t == root.left || (t == x && x.red)
    }

    method LeftSiblingRed(x: Node, w: Node)
      requires LeftShort(x) && w == x.parent.right && w.red
      modifies nodes`left, nodes`right, nodes`parent, nodes`maxHigh, nodes`lo, nodes`hi, nodes`red, nodes`bh
      ensures LeftShort(x) && !x.parent.right.red && x.parent == old(x.parent) && x.parent.red
      ensures old(root.left) != x.parent ==> root.left == old(root.left)
    {
      ghost var q := x.parent;
      assert ShapeAt(root);
      LeftDoCase1(x, w);
      LeftRotateKeeps(q);
      LeftCase1Blacks(x);
      LeftCase1Reds(x);
      LeftShortIn(x);
    }

    method LeftNephewsBlack(x: Node, w: Node)
      requires LeftShort(x) && w == x.parent.right && !w.red && !w.left.red && !w.right.red
      modifies nodes`red, nodes`bh
      ensures x.parent == old(x.parent) && Deleting(x.parent, x.parent == x.parent.parent.left)
      ensures root.left == old(root.left) && x.parent.red == old(x.parent.red)
      ensures x.parent.hi - x.parent.lo < x.parent.parent.hi - x.parent.parent.lo
    {
      assert ShapeAt(root);
      LeftDoCase2(x, w);
      LeftCase2Blacks(x);
      LeftCase2Reds(x);
    }

    method LeftNearNephewRed(x: Node, w: Node)
      requires LeftShort(x) && w == x.parent.right && !w.red && w.left.red && !w.right.red
      modifies nodes`left, nodes`right, nodes`parent, nodes`maxHigh, nodes`lo, nodes`hi, nodes`red, nodes`bh
      ensures LeftShort(x) && !x.parent.right.red && x.parent.right.right.red && x.parent == old(x.parent)
      ensures root.left == old(root.left) && (forall n | n in nodes && n != w && n != old(w.left) :: n.red == old(n.red))
    {
      RightRotatableIn(w);
      assert ShapeAt(root);
      LeftDoCase3(x, w);
      RightRotateKeeps(w);
      LeftCase3Blacks(x);
      LeftCase3Reds(x);
      LeftShortIn(x);
    }

    method LeftFarNephewRed(x: Node, w: Node)
      requires LeftShort(x) && w == x.parent.right && !w.red && w.right.red
      modifies nodes`left, nodes`right, nodes`parent, nodes`maxHigh, nodes`lo, nodes`hi, nodes`red, nodes`bh
      ensures Repaired() && !old(x.parent).red
      ensures forall n | n in nodes && n != w :: !old(n.red) ==> !n.red
    {
      ghost var q := x.parent;
      LeftDoCase4(x, w);
      LeftRotateKeeps(q);
      LeftCase4Blacks(x);
      LeftCase4Reds(x);
    }

    method RightSiblingRed(x: Node, w: Node)
      requires RightShort(x) && w == x.parent.left && w.red
      modifies nodes`right, nodes`left, nodes`parent, nodes`maxHigh, nodes`lo, nodes`hi, nodes`red, nodes`bh
      ensures RightShort(x) && !x.parent.left.red && x.parent == old(x.parent) && x.parent.red
      ensures old(root.left) != x.parent ==> root.left == old(root.left)
    {
      ghost var q := x.parent;
      assert ShapeAt(root);
      RightDoCase1(x, w);
      RightRotateKeeps(q);
      RightCase1Blacks(x);
      RightCase1Reds(x);
      RightShortIn(x);
    }

    method RightNephewsBlack(x: Node, w: Node)
      requires RightShort(x) && w == x.parent.left && !w.red && !w.right.red && !w.left.red
      modifies nodes`red, nodes`bh
      ensures x.parent == old(x.parent) && Deleting(x.parent, x.parent == x.parent.parent.left)
      ensures root.left == old(root.left) && x.parent.red == old(x.parent.red)
      ensures x.parent.hi - x.parent.lo < x.parent.parent.hi - x.parent.parent.lo
    {
      assert ShapeAt(root);
      RightDoCase2(x, w);
      RightCase2Blacks(x);
      RightCase2Reds(x);
    }

    method RightNearNephewRed(x: Node, w: Node)
      requires RightShort(x) && w == x.parent.left && !w.red && w.right.red && !w.left.red
      modifies nodes`right, nodes`left, nodes`parent, nodes`maxHigh, nodes`lo, nodes`hi, nodes`red, nodes`bh
      ensures RightShort(x) && !x.parent.left.red && x.parent.left.left.red && x.parent == old(x.parent)
      ensures root.left == old(root.left) && (forall n | n in nodes && n != w && n != old(w.right) :: n.red == old(n.red))
    {
      LeftRotatableIn(w);
      assert ShapeAt(root);
      RightDoCase3(x, w);
      LeftRotateKeeps(w);
      RightCase3Blacks(x);
      RightCase3Reds(x);
      RightShortIn(x);
    }

    method RightFarNephewRed(x: Node, w: Node)
      requires RightShort(x) && w == x.parent.left && !w.red && w.left.red
      modifies nodes`right, nodes`left, nodes`parent, nodes`maxHigh, nodes`lo, nodes`hi, nodes`red, nodes`bh
      ensures Repaired() && !old(x.parent).red
      ensures forall n | n in nodes && n != w :: !old(n.red) ==> !n.red
    {
      ghost var q := x.parent;
      RightDoCase4(x, w);
      RightRotateKeeps(q);
      RightCase4Blacks(x);
      RightCase4Reds(x);
    }

    /** One round of `DeleteFixup` for a left child; `t` is the top node as it was before the loop. */
    method DeleteFixupLeft(x0: Node, t: Node) returns (x: Node, ghost atLeft: bool, ghost done: bool)
      requires Deleting(x0, true) && !x0.red && t == root.left && t != x0 && x0.parent != root
      modifies nodes`left, nodes`right, nodes`parent, nodes`maxHigh, nodes`lo, nodes`hi, nodes`red, nodes`bh
      ensures done ==> x == t && t in nodes && !t.red && Repaired()
      ensures !done ==> Deleting(x, atLeft) && x in nodes && TopOrRed(t, x)
      ensures !done && !x.red ==> x.parent.hi - x.parent.lo > old(x0.parent.hi - x0.parent.lo)
    {
      x, atLeft, done := x0, true, false;
      LeftShortIn(x);
      assert ShapeAt(root) && ShapeAt(x.parent);
      var w := x.parent.right;
      if w.red {
        LeftSiblingRed(x, w);
        w := x.parent.right;
      }
      assert t in nodes && (t == root.left || t == x.parent) && (t != x.parent ==> !t.red);
      if !w.right.red && !w.left.red {
        LeftNephewsBlack(x, w);
        x := x.parent;
        atLeft := x == x.parent.left;
      } else {
        LeftFinish(x, w, t);
        x, done := t, true;
      }
    }

    method LeftFinish(x: Node, w0: Node, ghost t: Node)
      requires LeftShort(x) && w0 == x.parent.right && !w0.red && (w0.left.red || w0.right.red)
      requires t in nodes && (t == x.parent || (t == root.left && !t.red))
      modifies nodes`left, nodes`right, nodes`parent, nodes`maxHigh, nodes`lo, nodes`hi, nodes`red, nodes`bh
      ensures Repaired() && !t.red
    {
      var w := w0;
      assert ShapeAt(root) && ShapeAt(t);
      if !w.right.red {
        LeftNearNephewRed(x, w);
        w := x.parent.right;
        assert ShapeAt(root) && ShapeAt(t);
      }
      LeftFarNephewRed(x, w);
    }

    /** One round of `DeleteFixup` for a right child; `t` is the top node as it was before the loop. */
    method DeleteFixupRight(x0: Node, t: Node) returns (x: Node, ghost atLeft: bool, ghost done: bool)
      requires Deleting(x0, false) && !x0.red && t == root.left && t != x0 && x0.parent != root
      modifies nodes`right, nodes`left, nodes`parent, nodes`maxHigh, nodes`lo, nodes`hi, nodes`red, nodes`bh
      ensures done ==> x == t && t in nodes && !t.red && Repaired()
      ensures !done ==> Deleting(x, atLeft) && x in nodes && TopOrRed(t, x)
      ensures !done && !x.red ==> x.parent.hi - x.parent.lo > old(x0.parent.hi - x0.parent.lo)
    {
      hide Blacks, Reds, MaxHighs, Repaired;
      x, atLeft, done := x0, true, false;
      RightShortIn(x);
      assert ShapeAt(root) && ShapeAt(x.parent);
      var w := x.parent.left;
      if w.red {
        RightSiblingRed(x, w);
        w := x.parent.left;
      }
      assert t in nodes && (t == root.left || t == x.parent) && (t != x.parent ==> !t.red);
      if !w.left.red && !w.right.red {
        RightNephewsBlack(x, w);
        x := x.parent;
        atLeft := x == x.parent.left;
      } else {
        RightFinish(x, w, t);
        x, done := t, true;
      }
    }

    method RightFinish(x: Node, w0: Node, ghost t: Node)
      requires RightShort(x) && w0 == x.parent.left && !w0.red && (w0.right.red || w0.left.red)
      requires t in nodes && (t == x.parent || (t == root.left && !t.red))
      modifies nodes`right, nodes`left, nodes`parent, nodes`maxHigh, nodes`lo, nodes`hi, nodes`red, nodes`bh
      ensures Repaired() && !t.red
    {
      var w := w0;
      assert ShapeAt(root) && ShapeAt(t);
      if !w.left.red {
        RightNearNephewRed(x, w);
        w := x.parent.left;
        assert ShapeAt(root) && ShapeAt(t);
      }
      RightFarNephewRed(x, w);
    }

    twostate lemma BlackenedShort(m: Move)
      requires old(Deleting(m.child, m.atLeft)) && m.child in nodes && (old(m.child.red) || m.child.parent == root)
      requires Blackened(m.child) && SameLinks() && nil.red == old(nil.red) && nil.bh == old(nil.bh)
      ensures Blacks(nil, true) && Reds(nil, nil) && TopBlack(nil)
    {
      var x := m.child;
      assert old(ShapeAt(root)) && old(ShapeAt(x)) && old(ShapeAt(x.parent));
      forall n | n in nodes && n != root ensures BlackAt(n, nil, true) {
        assert old(ShapeAt(n)) && old(BlackAt(n, x.parent, m.atLeft));
      }
      forall n | n in nodes ensures RedAt(n, nil, nil) {
        assert old(ShapeAt(n)) && old(RedAt(n, x, x));
      }
    }

    lemma EmptyTree()
      requires Shape() && root.left == nil && nil !in nodes
      ensures nodes == {root}
    {
      assert ShapeAt(root);
      forall n | n in nodes ensures n == root {
        assert ShapeAt(n);
      }
    }

    twostate lemma NothingBlackened()
      requires old(Repaired()) && SameLinks() && nil.red == old(nil.red) && nil.bh == old(nil.bh)
      requires forall n {:trigger n.red} | n in nodes :: n.red == old(n.red)
      requires forall n {:trigger n.bh} | n in nodes :: n.bh == old(n.bh)
      ensures Blacks(nil, true) && Reds(nil, nil) && TopBlack(nil)
    {
      forall n | n in nodes && n != root ensures BlackAt(n, nil, true) {
        assert old(BlackAt(n, nil, true));
      }
      forall n | n in nodes ensures RedAt(n, nil, nil) {
        assert old(RedAt(n, nil, nil));
      }
    }

    /** The end of `DeleteFixup`: the node it stopped at becomes black. */
    method FinishDelete(x: Node, ghost atLeft: bool, ghost done: bool)
      requires if done then x in nodes && !x.red && Repaired() else Deleting(x, atLeft)
      requires !done ==> (x.red || root.left == x)
      modifies x`red, x`bh
      ensures Repaired()
    {
      assert x in nodes ==> ShapeAt(x);
      assert ShapeAt(root);
      if x == nil {
        EmptyTree();
      }
      label before:
      Blacken(x);
      if done || x == nil {
        NothingBlackened@before();
      } else {
        BlackenedShort@before(Move(x, x, x, true, atLeft));
      }
    }

    method DeleteFixup(x0: Node, ghost atLeft0: bool)
      requires Deleting(x0, atLeft0)
      modifies nil`red, nil`bh, nodes`left, nodes`right, nodes`parent, nodes`maxHigh, nodes`lo, nodes`hi, nodes`red, nodes`bh
      ensures Repaired()
    {
      var rootLeftNode := root.left;
      var x := x0;
      ghost var atLeft, done := atLeft0, false;
      while !x.red && rootLeftNode != x
        invariant done ==> x == rootLeftNode && x in nodes && !x.red && Repaired()
        invariant !done ==> Deleting(x, atLeft) && TopOrRed(rootLeftNode, x)
        decreases if done || x.red then 0 else 1, if done then 0 else |order| - (x.parent.hi - x.parent.lo)
      {
        assert ShapeAt(root) && ShapeAt(x.parent);
        assert x.parent != root ==> BlackAt(x.parent, x.parent, atLeft);
        if x == x.parent.left {
          x, atLeft, done := DeleteFixupLeft(x, rootLeftNode);
        } else {
          x, atLeft, done := DeleteFixupRight(x, rootLeftNode);
        }
        assert !done ==> ShapeAt(x.parent);
      }
      FinishDelete(x, atLeft, done);
    }

    /** Removes the node `z`; its interval is returned. */
    method DeleteNode(z: Node) returns (removed: Interval?)
      requires Valid() && z in nodes && z != root
      modifies this`nodes, this`order, nil`parent, nil`red, nil`bh
      modifies nodes`left, nodes`right, nodes`parent, nodes`maxHigh, nodes`lo, nodes`pos, nodes`hi, nodes`red, nodes`bh
      ensures Valid() && removed == z.stored && nodes == old(nodes) - {z}
      ensures 0 <= old(z.pos) < |old(order)| && old(order)[old(z.pos)] == z
      ensures order == old(order)[..old(z.pos)] + old(order)[old(z.pos) + 1..]
    {
      removed := z.stored;
      assert ShapeAt(z);
      var x, black;
      ghost var atLeft;
      x, black, atLeft := CutOut(z);
      Rebalance(x, black, atLeft);
    }

    lemma NoShortage(atLeft: bool)
      requires Blacks(nil, atLeft) && nil !in nodes
      ensures Blacks(nil, true)
    {
      forall n | n in nodes && n != root ensures BlackAt(n, nil, true) {
        assert BlackAt(n, nil, atLeft);
      }
    }

    /** The second half of `DeleteNode`: repairs `maxHigh` and, if a black node was lost, the colours. */
    method Rebalance(x: Node, black: bool, ghost atLeft: bool)
      requires Cut(x, black, atLeft)
      modifies nil`red, nil`bh
      modifies nodes`left, nodes`right, nodes`parent, nodes`maxHigh, nodes`lo, nodes`hi, nodes`red, nodes`bh
      ensures Valid()
    {
      FixupMaxHigh(x.parent);
      if black {
        DeleteFixup(x, atLeft);
      } else {
        NoShortage(atLeft);
      }
    }

    method CutOut(z: Node) returns (x: Node, black: bool, ghost atLeft: bool)
      requires Valid() && z in nodes && z != root
      modifies this`nodes, this`order, nil`parent
      modifies nodes`left, nodes`right, nodes`parent, nodes`maxHigh, nodes`lo, nodes`pos, nodes`hi, nodes`red, nodes`bh
      ensures Cut(x, black, atLeft) && nodes == old(nodes) - {z}
      ensures 0 <= old(z.pos) < |old(order)| && order == old(order)[..old(z.pos)] + old(order)[old(z.pos) + 1..]
    {
      assert ShapeAt(z);
      var y := z;
      if z.left != nil && z.right != nil {
        y := GetSuccessor(z);
        AboveParent(z, y);
        assert ShapeAt(y);
      }
      x := if y.left == nil then y.right else y.left;
      black := !y.red;
      if y != z {
        atLeft := CutInner(z, y, x);
      } else {
        atLeft := y.parent.left == y;
        SpliceOut(y, x);
      }
    }

    // ------------------------------------------------------------ search by identity

    /** The node that stores `interval`, or `nil`. */
    function RecursiveSearch(node: Node, interval: Interval): (r: Node)
      requires Shape() && (node in nodes || node == nil)
      reads this`nodes, this`order, nodes`left, nodes`right, nodes`parent, nodes`lo, nodes`pos, nodes`hi, nodes`stored
      reads root`lo, root`pos, root`hi
      decreases if node == nil then 0 else node.hi - node.lo
      ensures r == nil || (r in nodes && r.stored == interval)
      ensures r == nil && node != nil ==> forall i | 0 <= node.lo <= i < node.hi <= |order| :: order[i].stored != interval
    {
      if node == nil then nil
      else
        assert ShapeAt(node);
        if node.stored == interval then node
        else
          assert node.left != nil ==> ShapeAt(node.left);
          assert node.right != nil ==> ShapeAt(node.right);
          var l := RecursiveSearch(node.left, interval);
          if l != nil then l else RecursiveSearch(node.right, interval)
    }

    /** Removes a node that stores `interval`, if there is one. */
    method DeleteInterval(interval: Interval) returns (ghost z: Node)
      requires Valid()
      modifies this`nodes, this`order, nil`parent, nil`red, nil`bh
      modifies nodes`left, nodes`right, nodes`parent, nodes`maxHigh, nodes`lo, nodes`pos, nodes`hi, nodes`red, nodes`bh
      ensures Valid()
      ensures (forall n | n in old(nodes) :: n.stored != interval) ==> nodes == old(nodes) && order == old(order)
      ensures (exists n | n in old(nodes) :: n.stored == interval) ==>
        && z in old(nodes) && z.stored == interval && nodes == old(nodes) - {z}
        && 0 <= old(z.pos) < |old(order)| && order == old(order)[..old(z.pos)] + old(order)[old(z.pos) + 1..]
    {
      var node := RecursiveSearch(root, interval);
      z := node;
      forall n | n in nodes ensures node == nil ==> n.stored != interval {
        assert ShapeAt(n);
      }
      if node != nil {
        var _ := DeleteNode(node);
      }
    }

    // ------------------------------------------------------------ query

    lemma {:induction false} MaxHighBounds(n: Node)
      requires Shape() && MaxHighs() && n in nodes && n != root
      ensures 0 <= n.lo <= n.hi <= |order|
      ensures forall i | n.lo <= i < n.hi :: order[i].high <= n.maxHigh
      decreases n.hi - n.lo
    {
      assert ShapeAt(n) && MaxAt(n) && ShapeAt(root);
      if n.left != nil {
        assert ShapeAt(n.left);
        MaxHighBounds(n.left);
      }
      if n.right != nil {
        assert ShapeAt(n.right);
        MaxHighBounds(n.right);
      }
    }

    lemma {:induction false} MaxHighReached(n: Node) returns (i: int)
      requires Shape() && MaxHighs() && SentinelFields() && n in nodes && n != root
      requires forall m | m in nodes && m != root :: -MAX_TIME < m.high
      ensures 0 <= n.lo <= i < n.hi <= |order| && order[i].high == n.maxHigh
      decreases n.hi - n.lo
    {
      assert ShapeAt(n) && MaxAt(n) && ShapeAt(root);
      i := n.pos;
      if n.left != nil && n.maxHigh == n.left.maxHigh {
        assert ShapeAt(n.left);
        i := MaxHighReached(n.left);
      } else if n.right != nil && n.maxHigh == n.right.maxHigh {
        assert ShapeAt(n.right);
        i := MaxHighReached(n.right);
      }
    }

    /** `maxHigh` is the largest `high` of the subtree. */
    lemma MaxHighIsMaximum(n: Node)
      requires Valid() && n in nodes && n != root
      ensures 0 <= n.lo <= n.pos < n.hi < |order|
      ensures forall i | n.lo <= i < n.hi :: order[i].high <= n.maxHigh
      ensures exists i | n.lo <= i < n.hi :: order[i].high == n.maxHigh
    {
      hide MaxHighs, Blacks, Reds, TopBlack;
      assert ShapeAt(n);
      BelowRoot(n);
      MaxHighBounds(n);
      var i := MaxHighReached(n);
    }

    predicate Hit(low: int, high: int, n: Node)
      reads n`key, n`high
    {
      Overlap(low, high, n.key, n.high)
    }

    /** No node at the positions [a, b) overlaps. */
    ghost predicate Clean(a: int, b: int, low: int, high: int)
      requires Shape()
      reads this`nodes, this`order, nodes`left, nodes`right, nodes`parent, nodes`lo, nodes`pos, nodes`hi
      reads root`lo, root`pos, root`hi, nodes`key, nodes`high
    {
      forall i {:trigger order[i]} | 0 <= a <= i < b < |order| :: !Hit(low, high, order[i])
    }

    /**
     * The nodes on the stack, preceded by the root sentinel: each one lies in the left subtree of
     * the one before it and ends where that one sits.  Everything left of `cur` is dealt with.
     */
    ghost predicate Path(path: seq<Node>, cur: int)
      reads this`nodes, this`order, nodes`left, nodes`lo, nodes`pos, nodes`hi
    {
      && 0 < |path| && path[0] == root && (forall j {:trigger path[j]} | 0 <= j < |path| :: path[j] in nodes)
      && 0 <= cur <= path[|path| - 1].pos
      && (forall j {:trigger path[j]} | 0 < j < |path| ::
            path[j] != root && path[j].left != nil && 0 <= path[j].lo <= cur
            && path[j].hi == path[j - 1].pos && path[j].pos < path[j].hi)
    }

    ghost predicate StackHolds(st: seq<RecursionNode>, top: nat, path: seq<Node>)
    {
      && top == |path| && top <= |st|
      && (forall j {:trigger st[j]} | 0 < j < top :: st[j].startNode == path[j] && st[j].parentIndex == j - 1)
    }

    /** An unset flag: no hit so far left of the node, up to where the next stack entry takes over. */
    ghost predicate FlagOk(st: seq<RecursionNode>, path: seq<Node>, cur: int, j: int, low: int, high: int)
      requires Shape() && 0 < j < |path| <= |st| && path[j] in nodes && (j + 1 < |path| ==> path[j + 1] in nodes)
      reads this`nodes, this`order, nodes`left, nodes`right, nodes`parent, nodes`lo, nodes`pos, nodes`hi
      reads root`lo, root`pos, root`hi, nodes`key, nodes`high, nodes`maxHigh, nil`maxHigh
    {
      && (path[j].left in nodes || path[j].left == nil) && low <= path[j].left.maxHigh
      && (!st[j].tryRightBranch ==>
           && Clean(path[j].lo, if j + 1 < |path| then path[j + 1].lo else cur, low, high)
           && (j + 1 < |path| ==> !Hit(low, high, path[j + 1])))
    }

    /** `found` holds exactly the hits among the nodes left of `cur` and those on the path, each once. */
    ghost predicate Collected(found: seq<Node>, path: seq<Node>, cur: int, low: int, high: int)
      reads this`nodes, nodes`pos, nodes`key, nodes`high
    {
      && (forall i, j | 0 <= i < j < |found| :: found[i] != found[j])
      && (forall n {:trigger n in found} | n in nodes && n != root ::
            n in found <==> (n.pos < cur || n in path) && Hit(low, high, n))
      && (forall n {:trigger n in found} | n in found :: n in nodes && n != root)
    }

    /** In preorder `n` comes before `m`: its subtree begins earlier, or contains the one of `m`. */
    ghost predicate Before(n: Node, m: Node)
      reads n`lo, n`hi, m`lo, m`hi
    {
      n.lo < m.lo || (n.lo == m.lo && n.hi > m.hi)
    }

    ghost predicate InPreorder(found: seq<Node>)
      reads found`lo, found`hi
    {
      forall i, j | 0 <= i < j < |found| :: Before(found[i], found[j])
    }

    ghost predicate Walking(st: seq<RecursionNode>, path: seq<Node>, cur: int, found: seq<Node>, low: int, high: int)
      reads this`nodes, this`order, nodes, root, nil
    {
      && Valid() && Path(path, cur) && StackHolds(st, |path|, path) && Collected(found, path, cur, low, high)
      && (forall n | n in found :: n in nodes) && InPreorder(found)
      && Flags(st, path, cur, low, high)
    }

    /** `x` is the top of the part of the tree that comes next. */
    ghost predicate Next(x: Node, path: seq<Node>, cur: int)
      reads this`nodes, nodes`lo, nodes`pos, nodes`hi
    {
      0 < |path| && path[|path| - 1] in nodes && x in nodes && x != root && x.lo == cur && x.hi == path[|path| - 1].pos
    }

    function Visited(st: seq<RecursionNode>, i: nat, hit: bool): (st': seq<RecursionNode>)
      requires i < |st|
      ensures |st'| == |st|
    {
      if hit then st[i := st[i].(tryRightBranch := true)] else st
    }

    ghost function Recorded(found: seq<Node>, x: Node, low: int, high: int): seq<Node>
      reads x`key, x`high
    {
      if Hit(low, high, x) then found + [x] else found
    }

    lemma OffPath(path: seq<Node>, cur: int, x: Node, j: int)
      requires Shape() && Path(path, cur) && x in nodes && x.pos < path[|path| - 1].pos && 0 <= j < |path|
      ensures x.pos < path[j].pos
      decreases |path| - j
    {
      assert path[j] in nodes;
      if j + 1 < |path| {
        OffPath(path, cur, x, j + 1);
        assert ShapeAt(path[j + 1]);
      }
    }

    lemma VisitInPreorder(path: seq<Node>, cur: int, found: seq<Node>, low: int, high: int, x: Node)
      requires Shape() && Path(path, cur) && Collected(found, path, cur, low, high) && Next(x, path, cur)
      requires InPreorder(found)
      ensures InPreorder(Recorded(found, x, low, high)) && forall n | n in Recorded(found, x, low, high) :: n in nodes
    {
      assert ShapeAt(x);
      forall n | n in found ensures n in nodes && Before(n, x) {
        assert ShapeAt(n);
        if n.pos >= cur {
          var j :| 0 <= j < |path| && path[j] == n;
          OffPath(path, cur, x, j);
          LaterEnds(path, cur, j);
        }
      }
    }

    /** The nodes of the path end behind the last one's position. */
    lemma LaterEnds(path: seq<Node>, cur: int, j: int)
      requires Shape() && Path(path, cur) && 0 <= j < |path|
      ensures path[j] in nodes && path[j].hi > path[j].pos >= path[|path| - 1].pos
      decreases |path| - j
    {
      assert path[j] in nodes && ShapeAt(path[j]);
      if j + 1 < |path| { LaterEnds(path, cur, j + 1); }
    }

    lemma VisitCollects(path: seq<Node>, cur: int, found: seq<Node>, low: int, high: int, x: Node)
      requires Valid() && Path(path, cur) && Collected(found, path, cur, low, high) && Next(x, path, cur)
      ensures Collected(Recorded(found, x, low, high), path + [x], cur, low, high)
    {
      assert ShapeAt(x);
      assert x !in path by {
        if x in path {
          var j :| 0 <= j < |path| && path[j] == x;
          OffPath(path, cur, x, j);
        }
      }
      assert x !in found;
      var found' := Recorded(found, x, low, high);
      forall n | n in nodes && n != root
        ensures n in found' <==> (n.pos < cur || n in path + [x]) && Hit(low, high, n)
      {
        assert n in path + [x] <==> n in path || n == x;
        assert n in found' <==> n in found || (n == x && Hit(low, high, x));
      }
    }

    lemma GrowKeeps(st: seq<RecursionNode>, more: seq<RecursionNode>, path: seq<Node>, cur: int, found: seq<Node>, low: int, high: int)
      requires Walking(st, path, cur, found, low, high)
      ensures Walking(st + more, path, cur, found, low, high)
    {
      forall j | 0 < j < |path| ensures FlagOk(st + more, path, cur, j, low, high) {
        assert FlagOk(st, path, cur, j, low, high);
      }
    }

    /** `x` is visited and its left subtree comes next, its right one later if the flag says so. */
    function PushLeft(st: seq<RecursionNode>, top: nat, hit: bool, x: Node): seq<RecursionNode>
      requires 0 < top < |st|
    {
      Visited(st, top - 1, hit)[top := RecursionNode(x, top - 1, false)]
    }

    lemma VisitLeft(st: seq<RecursionNode>, path: seq<Node>, cur: int, found: seq<Node>, low: int, high: int, x: Node)
      requires Walking(st, path, cur, found, low, high) && Next(x, path, cur) && low <= x.left.maxHigh && -MAX_TIME < low
      requires |path| < |st|
      ensures var st' := PushLeft(st, |path|, Hit(low, high, x), x);
        Walking(st', path + [x], cur, Recorded(found, x, low, high), low, high)
      ensures Next(x.left, path + [x], cur) && x.left != nil
    {
      hide Collected, Flags, Next, StackHolds, Path, InPreorder, Keys, MaxHighs, Blacks, Reds, PushLeft, Recorded;
      VisitLeftPath(st, path, cur, low, high, x);
      VisitCollects(path, cur, found, low, high, x);
      VisitInPreorder(path, cur, found, low, high, x);
      VisitLeftFlags(st, path, cur, low, high, x);
    }

    lemma VisitLeftPath(st: seq<RecursionNode>, path: seq<Node>, cur: int, low: int, high: int, x: Node)
      requires Shape() && nil.maxHigh == -MAX_TIME && Path(path, cur) && StackHolds(st, |path|, path)
      requires Next(x, path, cur) && low <= x.left.maxHigh && -MAX_TIME < low && |path| < |st|
      ensures Path(path + [x], cur) && StackHolds(PushLeft(st, |path|, Hit(low, high, x), x), |path| + 1, path + [x])
      ensures Next(x.left, path + [x], cur) && x.left != nil
    {
      assert ShapeAt(x) && x.left != nil && ShapeAt(x.left);
    }

    lemma VisitLeftFlags(st: seq<RecursionNode>, path: seq<Node>, cur: int, low: int, high: int, x: Node)
      requires Shape() && nil.maxHigh == -MAX_TIME && Path(path, cur) && |path| < |st| && Flags(st, path, cur, low, high)
      requires Next(x, path, cur) && low <= x.left.maxHigh && -MAX_TIME < low && Path(path + [x], cur)
      ensures Flags(PushLeft(st, |path|, Hit(low, high, x), x), path + [x], cur, low, high)
    {
      hide StackHolds;
      var st' := PushLeft(st, |path|, Hit(low, high, x), x);
      assert ShapeAt(x) && x.left != nil;
      forall j | 0 < j < |path| + 1 ensures FlagOk(st', path + [x], cur, j, low, high) {
        if j < |path| {
          assert FlagOk(st, path, cur, j, low, high);
        }
      }
    }

    lemma LowLeftIsClean(x: Node, low: int, high: int)
      requires Valid() && x in nodes && x != root && x.left.maxHigh < low <= high
      ensures Clean(x.lo, x.pos, low, high)
    {
      assert ShapeAt(x);
      if x.left != nil {
        assert ShapeAt(x.left);
        MaxHighIsMaximum(x.left);
        forall i | x.lo <= i < x.pos ensures !Hit(low, high, order[i]) {
          assert order[i] in nodes;
        }
      }
    }

    ghost predicate CleanOrOn(path: seq<Node>, a: int, b: int, low: int, high: int)
      requires Shape()
      reads this`nodes, this`order, nodes`left, nodes`right, nodes`parent, nodes`lo, nodes`pos, nodes`hi
      reads root`lo, root`pos, root`hi, nodes`key, nodes`high
    {
      forall i {:trigger order[i]} | 0 <= a <= i < b < |order| :: order[i] in path || !Hit(low, high, order[i])
    }

    /** Positions without a new hit can be skipped. */
    lemma SkipCollects(path: seq<Node>, cur: int, cur': int, found: seq<Node>, low: int, high: int)
      requires Shape() && Collected(found, path, cur, low, high) && 0 <= cur <= cur' < |order|
      requires CleanOrOn(path, cur, cur', low, high)
      ensures Collected(found, path, cur', low, high)
    {
      forall n | n in nodes && n != root ensures n in found <==> (n.pos < cur' || n in path) && Hit(low, high, n) {
        assert ShapeAt(n);
        assert order[n.pos] == n;
      }
    }

    /** The last node of the path can be dropped once `cur` has passed it. */
    lemma DropCollects(path: seq<Node>, x: Node, cur: int, found: seq<Node>, low: int, high: int)
      requires Collected(found, path + [x], cur, low, high) && x in nodes && x.pos < cur
      ensures Collected(found, path, cur, low, high)
    {
      forall n | n in nodes && n != root ensures n in found <==> (n.pos < cur || n in path) && Hit(low, high, n) {
        assert n in path + [x] <==> n in path || n == x;
      }
    }

    /** So `x`, the last node of the path, can be passed together with positions without a hit around it. */
    lemma PassNode(path: seq<Node>, x: Node, cur: int, cur': int, found: seq<Node>, low: int, high: int)
      requires Shape() && x in nodes && Collected(found, path + [x], cur, low, high) && 0 <= cur <= x.pos < cur' < |order|
      requires Clean(cur, x.pos, low, high) && Clean(x.pos + 1, cur', low, high)
      ensures Collected(found, path, cur', low, high)
    {
      CleanButNode(path, x, cur, cur', low, high);
      hide Collected, Shape, Clean, CleanOrOn;
      SkipCollects(path + [x], cur, cur', found, low, high);
      DropCollects(path, x, cur', found, low, high);
    }

    lemma CleanButNode(path: seq<Node>, x: Node, cur: int, cur': int, low: int, high: int)
      requires Shape() && x in nodes && 0 <= cur <= x.pos < cur' < |order|
      requires Clean(cur, x.pos, low, high) && Clean(x.pos + 1, cur', low, high)
      ensures CleanOrOn(path + [x], cur, cur', low, high)
    {
      assert ShapeAt(x);
      assert x in path + [x];
    }

    ghost predicate Flags(st: seq<RecursionNode>, path: seq<Node>, cur: int, low: int, high: int)
      requires Shape() && |path| <= |st| && forall j {:trigger path[j]} | 0 <= j < |path| :: path[j] in nodes
      reads this`nodes, this`order, nodes`left, nodes`right, nodes`parent, nodes`lo, nodes`pos, nodes`hi
      reads root`lo, root`pos, root`hi, nodes`key, nodes`high, nodes`maxHigh, nil`maxHigh
    {
      forall j {:trigger FlagOk(st, path, cur, j, low, high)} | 0 < j < |path| :: FlagOk(st, path, cur, j, low, high)
    }

    /** `x` is visited, nothing in its left subtree reaches `low`, and its right subtree comes next. */
    lemma VisitRight(st: seq<RecursionNode>, path: seq<Node>, cur: int, found: seq<Node>, low: int, high: int, x: Node, cur': int)
      requires Walking(st, path, cur, found, low, high) && Next(x, path, cur) && x.left.maxHigh < low <= high && cur' == x.pos + 1
      ensures Walking(Visited(st, |path| - 1, Hit(low, high, x)), path, cur', Recorded(found, x, low, high), low, high)
      ensures path[|path| - 1] in nodes && if x.right != nil then Next(x.right, path, cur') else cur' == path[|path| - 1].pos
    {
      hide Collected, Flags, StackHolds, Path, InPreorder, Keys, MaxHighs, Blacks, Reds, Recorded, Clean, Sentinels;
      VisitRightPath(path, cur, x, cur');
      VisitCollects(path, cur, found, low, high, x);
      VisitInPreorder(path, cur, found, low, high, x);
      LowLeftIsClean(x, low, high);
      NothingIsClean(cur', low, high);
      VisitedHolds(st, path, Hit(low, high, x));
      PassNode(path, x, cur, cur', Recorded(found, x, low, high), low, high);
      VisitRightFlags(st, path, cur, found, low, high, x, cur');
    }

    lemma VisitedHolds(st: seq<RecursionNode>, path: seq<Node>, hit: bool)
      requires 0 < |path| && StackHolds(st, |path|, path)
      ensures StackHolds(Visited(st, |path| - 1, hit), |path|, path)
    {
    }

    lemma NothingIsClean(a: int, low: int, high: int)
      requires Shape()
      ensures Clean(a, a, low, high)
    {
    }

    lemma VisitRightPath(path: seq<Node>, cur: int, x: Node, cur': int)
      requires Shape() && Path(path, cur) && Next(x, path, cur) && cur' == x.pos + 1
      ensures Path(path, cur') && 0 <= cur == x.lo <= x.pos < cur' < |order|
      ensures path[|path| - 1] in nodes && if x.right != nil then Next(x.right, path, cur') else cur' == path[|path| - 1].pos
    {
      assert ShapeAt(x) && ShapeAt(root) && ShapeAt(path[|path| - 1]) && (x.right != nil ==> ShapeAt(x.right));
    }

    lemma VisitRightFlags(st: seq<RecursionNode>, path: seq<Node>, cur: int, found: seq<Node>, low: int, high: int, x: Node, cur': int)
      requires Walking(st, path, cur, found, low, high) && Next(x, path, cur) && Clean(x.lo, x.pos, low, high) && cur' == x.pos + 1
      ensures Flags(Visited(st, |path| - 1, Hit(low, high, x)), path, cur', low, high)
    {
      var st' := Visited(st, |path| - 1, Hit(low, high, x));
      assert ShapeAt(x);
      forall j | 0 < j < |path| ensures FlagOk(st', path, cur', j, low, high) {
        assert FlagOk(st, path, cur, j, low, high);
      }
    }

    lemma PopFlaggedFlags(st: seq<RecursionNode>, p: seq<Node>, s: Node, cur: int, found: seq<Node>, low: int, high: int,
                          st': seq<RecursionNode>)
      requires Walking(st, p + [s], s.pos, found, low, high) && 0 < |p| && cur == s.pos + 1
      requires st' == Visited(st, |p| - 1, true)
      ensures |p| <= |st| && (forall j {:trigger p[j]} | 0 <= j < |p| :: p[j] in nodes) && Flags(st', p, cur, low, high)
    {
      var path := p + [s];
      assert forall j {:trigger p[j]} | 0 <= j < |p| :: p[j] == path[j];
      forall j | 0 < j < |p| ensures FlagOk(st', p, cur, j, low, high) {
        assert FlagOk(st, path, s.pos, j, low, high);
      }
    }

    lemma PopFlaggedNext(st: seq<RecursionNode>, p: seq<Node>, s: Node, cur: int, found: seq<Node>, low: int, high: int)
      requires Walking(st, p + [s], s.pos, found, low, high) && 0 < |p| && cur == s.pos + 1
      ensures Path(p, cur) && |p| < |st| && StackHolds(Visited(st, |p| - 1, true), |p|, p) && s in nodes && 0 <= s.pos < cur < |order|
      ensures if s.right != nil then Next(s.right, p, cur) else cur == p[|p| - 1].pos
    {
      var path := p + [s];
      assert path[|p|] == s && path[|p| - 1] == p[|p| - 1];
      assert ShapeAt(s) && ShapeAt(p[|p| - 1]) && (s.right != nil ==> ShapeAt(s.right));
      assert forall j {:trigger p[j]} | 0 <= j < |p| :: p[j] == path[j];
    }

    lemma PopFlagged(st: seq<RecursionNode>, p: seq<Node>, s: Node, cur: int, found: seq<Node>, low: int, high: int)
      requires Walking(st, p + [s], s.pos, found, low, high) && 0 < |p| && cur == s.pos + 1
      ensures Walking(Visited(st, |p| - 1, true), p, cur, found, low, high)
      ensures p[|p| - 1] in nodes && if s.right != nil then Next(s.right, p, cur) else cur == p[|p| - 1].pos
    {
      hide Collected, Flags, Next, StackHolds, Path, InPreorder, MaxHighs, Blacks, Reds, Keys, Clean, Sentinels;
      PopFlaggedNext(st, p, s, cur, found, low, high);
      PopFlaggedFlags(st, p, s, cur, found, low, high, Visited(st, |p| - 1, true));
      NothingIsClean(s.pos, low, high);
      NothingIsClean(cur, low, high);
      PassNode(p, s, s.pos, cur, found, low, high);
    }

    /** A fruitless left descent: everything in the right subtree starts after `high`. */
    lemma RightIsClean(s: Node, low: int, high: int)
      requires Valid() && s in nodes && s != root && s.left != nil && low <= s.left.maxHigh && low <= high
      requires Clean(s.lo, s.pos, low, high)
      ensures s.hi < |order| && Clean(s.pos + 1, s.hi, low, high)
    {
      assert ShapeAt(s) && ShapeAt(s.left) && ShapeAt(root);
      BelowRoot(s);
      MaxHighIsMaximum(s.left);
      var m :| s.left.lo <= m < s.left.hi && order[m].high == s.left.maxHigh;
      assert !Hit(low, high, order[m]);
      forall i | s.pos + 1 <= i < s.hi ensures !Hit(low, high, order[i]) {
        assert order[m].key <= order[i].key;
      }
    }

    lemma PopUnflagged(st: seq<RecursionNode>, p: seq<Node>, s: Node, found: seq<Node>, low: int, high: int)
      requires Walking(st, p + [s], s.pos, found, low, high) && 0 < |p| && !st[|p|].tryRightBranch && low <= high
      ensures Walking(st, p, s.hi, found, low, high) && s.hi == p[|p| - 1].pos
    {
      hide Collected, Flags, StackHolds, Path, InPreorder, MaxHighs, Blacks, Reds, Keys, Clean, Sentinels;
      PopUnflaggedPath(st, p, s, found, low, high);
      RightIsClean(s, low, high);
      NothingIsClean(s.pos, low, high);
      PassNode(p, s, s.pos, s.hi, found, low, high);
      PopUnflaggedFlags(st, p, s, found, low, high);
    }

    lemma PopUnflaggedPath(st: seq<RecursionNode>, p: seq<Node>, s: Node, found: seq<Node>, low: int, high: int)
      requires Walking(st, p + [s], s.pos, found, low, high) && 0 < |p| && !st[|p|].tryRightBranch
      ensures Path(p, s.hi) && |p| < |st| && StackHolds(st, |p|, p) && s.hi == p[|p| - 1].pos
      ensures s in nodes && s != root && s.left != nil && low <= s.left.maxHigh && 0 <= s.pos < s.hi < |order|
      ensures Clean(s.lo, s.pos, low, high)
    {
      var path := p + [s];
      assert path[|p|] == s && path[|p| - 1] == p[|p| - 1];
      assert FlagOk(st, path, s.pos, |p|, low, high);
      assert ShapeAt(s) && ShapeAt(root) && ShapeAt(p[|p| - 1]);
      assert forall j {:trigger p[j]} | 0 <= j < |p| :: p[j] == path[j];
    }

    lemma PopUnflaggedFlags(st: seq<RecursionNode>, p: seq<Node>, s: Node, found: seq<Node>, low: int, high: int)
      requires Walking(st, p + [s], s.pos, found, low, high) && 0 < |p| && !st[|p|].tryRightBranch
      requires Clean(s.pos + 1, s.hi, low, high)
      ensures |p| <= |st| && (forall j {:trigger p[j]} | 0 <= j < |p| :: p[j] in nodes) && Flags(st, p, s.hi, low, high)
    {
      var path := p + [s];
      assert FlagOk(st, path, s.pos, |p|, low, high) && path[|p|] == s && path[|p| - 1] == p[|p| - 1];
      assert ShapeAt(s) && ShapeAt(p[|p| - 1]) && s.hi < |order|;
      assert forall j {:trigger p[j]} | 0 <= j < |p| :: p[j] == path[j];
      CleanMerges(s, low, high);
      forall j | 0 < j < |p| ensures FlagOk(st, p, s.hi, j, low, high) {
        assert FlagOk(st, path, s.pos, j, low, high);
      }
    }

    lemma CleanMerges(s: Node, low: int, high: int)
      requires Shape() && s in nodes && s.hi < |order| && Clean(s.lo, s.pos, low, high) && Clean(s.pos + 1, s.hi, low, high)
      ensures !Hit(low, high, s) ==> Clean(s.lo, s.hi, low, high)
    {
      assert ShapeAt(s);
    }

    ghost predicate Stored(result: seq<Interval?>, found: seq<Node>)
      reads found
    {
      |result| == |found| && forall i | 0 <= i < |found| :: result[i] == found[i].stored
    }

    lemma GrownVisited(st: seq<RecursionNode>, more: seq<RecursionNode>, i: nat, hit: bool)
      requires i < |st|
      ensures Visited(st, i, hit) + more == Visited(st + more, i, hit)
    {
    }

    /** Where the walk stands: a node comes next, or the stack has to be unwound. */
    ghost predicate Standing(x: Node, run: bool, path: seq<Node>, cur: int)
      reads this`nodes, this`order, this`stackTop, nodes`lo, nodes`pos, nodes`hi, this`currentParent
    {
      && 0 < |path| == stackTop && path[|path| - 1] in nodes
      && if run then Next(x, path, cur) && currentParent == stackTop - 1 else cur == path[|path| - 1].pos
    }

    lemma {:induction false} WalkIsBounded(path: seq<Node>, cur: int, k: int)
      requires Shape() && Path(path, cur) && 0 <= k < |path|
      ensures path[k].pos + k < |order|
    {
      if k > 0 {
        WalkIsBounded(path, cur, k - 1);
        assert path[k].pos < path[k].hi == path[k - 1].pos;
      }
    }

    lemma StandingFacts(x: Node, run: bool, path: seq<Node>, cur: int, found: seq<Node>, low: int, high: int)
      requires Walking(stack, path, cur, found, low, high) && Standing(x, run, path, cur)
      ensures 0 < |path| == stackTop <= |stack| && path[0] == root && cur + |path| <= |order|
      ensures run ==> Next(x, path, cur) && x in nodes && x.lo == cur && x.lo <= x.pos
    {
      WalkIsBounded(path, cur, |path| - 1);
      assert run ==> ShapeAt(x);
    }

    lemma PopReady(st: seq<RecursionNode>, path: seq<Node>, cur: int, found: seq<Node>, low: int, high: int)
      requires Walking(st, path, cur, found, low, high) && 1 < |path|
      ensures var s, p := path[|path| - 1], path[..|path| - 1];
        path == p + [s] && 0 < |p| < |st| && st[|p|].startNode == s && st[|p|].parentIndex == |p| - 1
        && s.pos < s.hi && p[|p| - 1] in nodes
    {
      hide Valid, Collected, Flags, InPreorder;
    }

    lemma StartWalk(low: int, high: int)
      requires Valid() && StackReady() && currentParent == 0
      ensures Walking(stack, [root], 0, [], low, high) && Standing(root.left, root.left != nil, [root], 0)
    {
      assert ShapeAt(root);
      forall n | n in nodes && n != root ensures !(n.pos < 0 || n in [root]) {
        assert ShapeAt(n);
      }
    }

    lemma AllWalked(x: Node, path: seq<Node>, cur: int, found: seq<Node>, low: int, high: int)
      requires Walking(stack, path, cur, found, low, high) && Standing(x, false, path, cur) && stackTop == 1
      ensures StackReady() && InPreorder(found) && forall i, j | 0 <= i < j < |found| :: found[i] != found[j]
      ensures forall n {:trigger n in found} :: n in found <==> n in nodes && n != root && Hit(low, high, n)
    {
      assert path == [root];
      forall n | n in nodes && n != root ensures n in found <==> Hit(low, high, n) {
        assert ShapeAt(n) && ShapeAt(root);
        assert n.pos != |order| - 1;
      }
    }

    /** Unwinds the stack until a right subtree is found that still has to be searched. */
    method Backtrack(x0: Node, low: int, high: int, ghost path0: seq<Node>, ghost cur0: int, ghost found: seq<Node>)
      returns (x: Node, run: bool, ghost path: seq<Node>, ghost cur: int)
      requires Walking(stack, path0, cur0, found, low, high) && Standing(x0, false, path0, cur0) && low <= high
      modifies this`stack, this`stackTop, this`currentParent
      ensures Walking(stack, path, cur, found, low, high) && Standing(x, run, path, cur) && (!run ==> stackTop == 1)
      ensures cur + |path| >= cur0 + |path0|
    {
      hide Walking, Valid, Next, StackHolds;
      x, run, path, cur := x0, false, path0, cur0;
      while !run && stackTop > 1
        invariant Walking(stack, path, cur, found, low, high) && Standing(x, run, path, cur)
        invariant cur + |path| >= cur0 + |path0|
        decreases stackTop
      {
        ghost var s, p := path[|path| - 1], path[..|path| - 1];
        PopReady(stack, path, cur, found, low, high);
        stackTop := stackTop - 1;
        if stack[stackTop].tryRightBranch {
          x := stack[stackTop].startNode.right;
          currentParent := stack[stackTop].parentIndex;
          PopFlagged(stack, p, s, s.pos + 1, found, low, high);
          stack := stack[currentParent := stack[currentParent].(tryRightBranch := true)];
          run := x != nil;
          path, cur := p, s.pos + 1;
        } else {
          PopUnflagged(stack, p, s, found, low, high);
          path, cur := p, s.hi;
        }
      }
    }

    /** Visits `x` and goes on to its left subtree if that may hold a hit, else to its right one. */
    method Descend(x0: Node, low: int, high: int, ghost path0: seq<Node>, ghost cur0: int, ghost found: seq<Node>)
      returns (x: Node, ghost path: seq<Node>, ghost cur: int)
      requires Walking(stack, path0, cur0, found, low, high) && Standing(x0, true, path0, cur0) && -MAX_TIME < low <= high
      modifies this`stack, this`stackTop, this`currentParent
      ensures Walking(stack, path, cur, Recorded(found, x0, low, high), low, high) && Standing(x, x != nil, path, cur)
      ensures cur + |path| > cur0 + |path0|
    {
      hide Walking, Valid, Next, StackHolds;
      x, path, cur := x0, path0, cur0;
      ghost var st, hit := stack, Hit(low, high, x);
      StandingFacts(x, true, path, cur, found, low, high);
      if Overlap(low, high, x.key, x.high) {
        stack := stack[currentParent := stack[currentParent].(tryRightBranch := true)];
      }
      assert stack == Visited(st, |path| - 1, hit);
      if x.left.maxHigh >= low {
        if stackTop == |stack| {
          var more := seq(|stack|, _ => RecursionNode(null, 0, false));
          GrowKeeps(st, more, path, cur, found, low, high);
          GrownVisited(st, more, |path| - 1, hit);
          stack, st := stack + more, st + more;
        }
        VisitLeft(st, path, cur, found, low, high, x);
        stack := stack[stackTop := RecursionNode(x, currentParent, false)];
        currentParent := stackTop;
        stackTop := stackTop + 1;
        path := path + [x];
        x := x.left;
      } else {
        VisitRight(st, path, cur, found, low, high, x, x.pos + 1);
        cur := x.pos + 1;
        x := x.right;
      }
    }

    /** All stored intervals that overlap [low, high], in preorder. */
    method Query(low: int, high: int) returns (result: seq<Interval?>, ghost found: seq<Node>)
      requires Valid() && StackReady() && -MAX_TIME < low <= high
      modifies this`stack, this`stackTop, this`currentParent
      ensures StackReady() && Stored(result, found) && InPreorder(found)
      ensures forall i, j | 0 <= i < j < |found| :: found[i] != found[j]
      ensures forall n {:trigger n in found} :: n in found <==> n in nodes && n != root && Hit(low, high, n)
    {
      hide Walking, Valid, Standing, InPreorder;
      result, found := [], [];
      var x := root.left;
      var run := x != nil;
      currentParent := 0;
      ghost var path, cur := [root], 0;
      StartWalk(low, high);
      StandingFacts(x, run, path, cur, found, low, high);
      while run
        invariant Walking(stack, path, cur, found, low, high) && Standing(x, run, path, cur) && Stored(result, found)
        invariant cur + |path| <= |order| && (!run ==> stackTop == 1)
        decreases if run then 1 else 0, |order| - cur - |path|
      {
        if Overlap(low, high, x.key, x.high) {
          result := result + [x.stored];
        }
        ghost var found0 := found;
        found := Recorded(found, x, low, high);
        x, path, cur := Descend(x, low, high, path, cur, found0);
        run := x != nil;
        if !run {
          x, run, path, cur := Backtrack(x, low, high, path, cur, found);
        }
        StandingFacts(x, run, path, cur, found, low, high);
      }
      AllWalked(x, path, cur, found, low, high);
    }
  }
}
