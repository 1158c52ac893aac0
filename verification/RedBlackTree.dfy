module RedBlackTree {
  datatype Color = Red | Black

  ghost predicate Sorted(keys: seq<int>) {
    forall i, j :: 0 <= i < j < |keys| ==> keys[i] <= keys[j]
  }

  ghost function Pow2(n: nat): (r: nat)
    ensures r >= 1
  {
    if n == 0 then 1 else 2 * Pow2(n - 1)
  }

  lemma Pow2Zero()
    ensures Pow2(0) == 1
  {
  }

  lemma {:induction false} Pow2Monotone(m: nat, n: nat)
    requires m <= n
    ensures Pow2(m) <= Pow2(n)
  {
    if m < n {
      Pow2Monotone(m, n - 1);
    }
  }

  lemma {:induction false} Pow2Sum(m: nat, n: nat)
    ensures Pow2(m + n) == Pow2(m) * Pow2(n)
  {
    if n > 0 {
      Pow2Sum(m, n - 1);
      assert Pow2(m + n) == 2 * Pow2(m + n - 1);
    }
  }

  lemma SquareMonotone(a: nat, b: nat)
    requires a <= b
    ensures a * a <= b * b
  {
    assert b * b - a * a == (b - a) * (b + a);
  }

  ghost function Reversed<T>(s: seq<T>): (r: seq<T>)
    ensures |r| == |s| && forall i :: 0 <= i < |s| ==> r[i] == s[|s| - 1 - i]
  {
    if s == [] then [] else Reversed(s[1..]) + [s[0]]
  }

  lemma ReversedGrows<T>(s: seq<T>, i: int, hi: int)
    requires 0 <= i < hi <= |s|
    ensures Reversed(s[i..hi]) == Reversed(s[i + 1..hi]) + [s[i]]
  {
    assert s[i..hi] == [s[i]] + s[i + 1..hi];
  }

  lemma JoinSlices(keys: seq<int>, lo: int, pos: int, hi: int)
    requires 0 <= lo <= pos < hi <= |keys|
    ensures keys[lo..hi] == keys[lo..pos] + [keys[pos]] + keys[pos + 1..hi]
  {
  }

  datatype Tree = Leaf | Branch(color: Color, left: Tree, key: int, right: Tree)

  ghost function InOrder(t: Tree): seq<int> {
    match t
    case Leaf => []
    case Branch(_, l, k, r) => InOrder(l) + [k] + InOrder(r)
  }

  ghost predicate RootBlack(t: Tree) {
    t.Branch? ==> t.color.Black?
  }

  ghost predicate NoRedRed(t: Tree) {
    match t
    case Leaf => true
    case Branch(c, l, _, r) => NoRedRed(l) && NoRedRed(r) && (c.Red? ==> RootBlack(l) && RootBlack(r))
  }

  // Every path from the root of t down to a leaf has b black nodes.
  ghost predicate BlackHeight(t: Tree, b: int) {
    match t
    case Leaf => b == 0
    case Branch(c, l, _, r) =>
      var below := if c.Black? then b - 1 else b;
      BlackHeight(l, below) && BlackHeight(r, below)
  }

  ghost function Height(t: Tree): nat {
    match t
    case Leaf => 0
    case Branch(_, l, _, r) => 1 + if Height(l) > Height(r) then Height(l) else Height(r)
  }

  // A node of the tree.  No operation of the source ever reassigns a key.
  //
  // The ghost fields describe where the node sits in the in-order sequence of
  // the tree: the node itself is at index pos, its subtree is the stretch
  // [lo, hi), and every path from it down to a null link meets bh black nodes.
  class Node {
    const key: int
    var color: Color
    var left: Node?
    var right: Node?
    var parent: Node?
    ghost var lo: int
    ghost var pos: int
    ghost var hi: int
    ghost var bh: int

    constructor (key: int, color: Color)
      ensures this.key == key && this.color == color
      ensures left == null && right == null && parent == null
    {
      this.key, this.color := key, color;
      left, right, parent := null, null, null;
    }
  }

  class RBTree {
    var mRoot: Node?
    ghost var Nodes: set<Node>
    ghost var Order: seq<Node>

    // ---------- the invariant, one node at a time ----------

    ghost predicate NodeOk(n: Node)
      requires n in Nodes
      reads this, Nodes
    {
      && 0 <= n.lo <= n.pos < n.hi <= |Order| && Order[n.pos] == n
      && (if n.left == null then n.lo == n.pos
          else n.left in Nodes && n.left.parent == n && n.left.lo == n.lo && n.left.hi == n.pos)
      && (if n.right == null then n.hi == n.pos + 1
          else n.right in Nodes && n.right.parent == n && n.right.lo == n.pos + 1 && n.right.hi == n.hi)
      && (if n.parent == null then n == mRoot
          else n.parent in Nodes && (n.parent.left == n || n.parent.right == n))
    }

    ghost predicate Shape()
      reads this, Nodes
    {
      && (mRoot == null ==> Order == [])
      && (mRoot != null ==> mRoot in Nodes && mRoot.parent == null && mRoot.lo == 0 && mRoot.hi == |Order|)
      && (forall i :: 0 <= i < |Order| ==> Order[i] in Nodes && Order[i].pos == i)
      && (forall n {:trigger NodeOk(n)} :: n in Nodes ==> NodeOk(n))
    }

    static ghost function Blk(c: Color): int { if c.Black? then 1 else 0 }

    static ghost predicate Leafy(n: Node)
      reads n
    {
      n.left == null || n.right == null
    }

    // Black heights add up at n, except that the child hx of hp (hx may be
    // null) is one black node short; hp == null means that nothing is missing.
    ghost predicate Bal(n: Node, hp: Node?, hx: Node?)
      requires n in Nodes
      reads this, Nodes
    {
      && n.bh >= Blk(n.color)
      && (n.parent in Nodes ==>
        n.bh + (if n == hx && n.parent == hp then 1 else 0) + Blk(n.parent.color) == n.parent.bh)
      && (Leafy(n) ==> n.bh == Blk(n.color) + (if n == hp && hx == null then 1 else 0))
    }

    ghost predicate Balanced(hp: Node?, hx: Node?)
      reads this, Nodes
    {
      forall n {:trigger Bal(n, hp, hx)} :: n in Nodes ==> Bal(n, hp, hx)
    }

    // A red node has a black parent.  The node e is exempt, and so are the
    // children of f.
    ghost predicate RedOk(n: Node, e: Node?, f: Node?)
      requires n in Nodes
      reads this, Nodes
    {
      n != e && n.color.Red? ==> n.parent in Nodes && (n.parent.color.Black? || n.parent == f)
    }

    ghost predicate Coloured(e: Node?, f: Node?)
      reads this, Nodes
    {
      forall n {:trigger RedOk(n, e, f)} :: n in Nodes ==> RedOk(n, e, f)
    }

    // The neighbours of node are nodes of the tree and differ from each other.
    ghost predicate LocallyTree(node: Node)
      reads this, node
    {
      && (node.left != null ==> node.left in Nodes && node.left != node)
      && (node.right != null ==> node.right in Nodes && node.right != node && node.right != node.left)
      && (node.parent != null ==> node.parent in Nodes && node.parent !in {node, node.left, node.right})
    }

    lemma Surroundings(n: Node)
      requires Shape() && n in Nodes
      ensures LocallyTree(n) && 0 <= n.pos < |Order|
      ensures n.left != null ==> n.left.parent == n
      ensures n.right != null ==> n.right.parent == n
    {
      assert NodeOk(n);
      assert n.left != null ==> NodeOk(n.left);
      assert n.right != null ==> NodeOk(n.right);
      assert n.parent != null ==> NodeOk(n.parent);
    }

    // A subtree of black height b holds at least 2^b - 1 nodes, if nothing is
    // missing below hp within it.
    lemma {:induction false} SizeBound(n: Node, hp: Node?, hx: Node?)
      requires Shape() && Balanced(hp, hx) && n in Nodes
      requires hp != null ==> !(n.lo <= hp.pos < n.hi)
      ensures n.bh >= 0 && Pow2(n.bh) <= n.hi - n.lo + 1 <= |Order| + 1
      decreases n.hi - n.lo
    {
      assert NodeOk(n) && Bal(n, hp, hx);
      if n.left != null {
        assert NodeOk(n.left) && Bal(n.left, hp, hx);
        SizeBound(n.left, hp, hx);
      }
      if n.right != null {
        assert NodeOk(n.right) && Bal(n.right, hp, hx);
        SizeBound(n.right, hp, hx);
      }
    }

    // After k steps up from the bottom, one more does not exceed the bound on
    // the iterations of the two repair loops.
    lemma ClimbBound(k: nat, n: Node, hp: Node?, hx: Node?)
      requires Shape() && Balanced(hp, hx) && n in Nodes && k <= n.bh
      requires hp != null ==> !(n.lo <= hp.pos < n.hi)
      ensures Pow2(k + 1) <= 2 * (|Order| + 1)
    {
      SizeBound(n, hp, hx);
      Pow2Monotone(k, n.bh);
    }

    // ---------- rotations ----------

    // What both rotations do to the parent links and to the null children:
    // y is lifted over its parent x, and m moves from y to x.
    twostate predicate Lifted(new x: Node, new y: Node, new m: Node?)
      reads this, Nodes
    {
      && Nodes == old(Nodes) && Order == old(Order)
      && x in old(Nodes) && y in old(Nodes) && x != y && (m != null ==> m in old(Nodes) && m != x && m != y)
      && old(y.parent) == x && y.parent == old(x.parent) && x.parent == y && y.parent != x && y.parent != y
      && (m != null ==> old(m.parent) == y && m.parent == x)
      && (m == null ==> old(Leafy(y)))
      && (Leafy(x) ==> m == null || old(Leafy(x)))
      && (Leafy(y) && m == null ==> old(y.left == null && y.right == null))
      && (forall n :: n in Nodes && n != x && n != y && n != m ==> n.parent == old(n.parent))
      && (forall n :: n in Nodes && n != x && Leafy(n) ==> old(Leafy(n)))
      && x.bh == old(y.bh) && y.bh == old(x.bh)
    }

    static ghost predicate RotatesLeft(x: Node)
      reads x, x.right, x.parent
    {
      && x.right != null && x.right != x
      && (x.right.left != null ==> x.right.left !in {x, x.right})
      && (x.parent != null ==> x.parent !in {x, x.right} && x.parent != x.right.left)
    }

    static ghost function Only(n: Node?): set<Node> { if n == null then {} else {n} }

    // algorithm/rbtree.h:350
    method LeftRotate(x: Node)
      requires RotatesLeft(x)
      modifies this`mRoot, x`right, x`parent, x`hi, x`bh
      modifies x.right`left, x.right`parent, x.right`lo, x.right`hi, x.right`bh
      modifies Only(x.right.left)`parent, Only(x.parent)`left, Only(x.parent)`right
      ensures LeftRotated(x, old(x.right), old(x.right.left), old(x.parent))
    {
      var y := x.right;
      x.right := y.left;
      if y.left != null {
        y.left.parent := x;
      }
      y.parent := x.parent;
      if x.parent == null {
        mRoot := y;
      } else {
        if x.parent.left == x {
          x.parent.left := y;
        } else {
          x.parent.right := y;
        }
      }
      y.left := x;
      x.parent := y;
      y.lo, y.hi, x.hi := x.lo, x.hi, y.pos;
      x.bh, y.bh := y.bh, x.bh;
    }

    twostate predicate LeftRotated(x: Node, y: Node, m: Node?, p: Node?)
      reads this, x, y, m, p
    {
      && mRoot == (if p == null then y else old(mRoot))
      && x.right == m && x.parent == y && x.hi == old(y.pos)
      && y.left == x && y.parent == p && y.lo == old(x.lo) && y.hi == old(x.hi)
      && x.bh == old(y.bh) && y.bh == old(x.bh)
      && (m != null ==> m.parent == x)
      && (p != null ==> if old(p.left) == x then p.left == y && p.right == old(p.right)
                        else p.left == old(p.left) && p.right == y)
    }

    twostate predicate LeftRotatedTree(new x: Node, new y: Node, new m: Node?, new p: Node?)
      reads this, Nodes
    {
      && Nodes == old(Nodes) && Order == old(Order)
      && x in old(Nodes) && old(x.right) == y && y in old(Nodes) && old(y.left) == m && old(x.parent) == p
      && (m != null ==> m in old(Nodes)) && (p != null ==> p in old(Nodes))
      && LeftRotated(x, y, m, p)
      && x.left == old(x.left) && x.lo == old(x.lo) && y.right == old(y.right)
      && (forall n :: n in Nodes ==> n.pos == old(n.pos))
      && (forall n :: n in Nodes && n != x && n != y ==>
        && n.lo == old(n.lo) && n.hi == old(n.hi)
        && (n != m ==> n.parent == old(n.parent))
        && (n != p ==> n.left == old(n.left) && n.right == old(n.right)))
    }

    twostate lemma LeftRotatedNode(new x: Node, new y: Node, new m: Node?, new p: Node?, new n: Node)
      requires old(Shape()) && LeftRotatedTree(x, y, m, p) && n in Nodes
      ensures NodeOk(n)
    {
      assert old(NodeOk(x));
      assert old(NodeOk(y));
      if n == y {
        assert p != null ==> old(NodeOk(p));
      } else {
        assert old(NodeOk(n));
      }
    }

    twostate lemma LeftRotatedShape(new x: Node, new y: Node, new m: Node?, new p: Node?)
      requires old(Shape()) && LeftRotatedTree(x, y, m, p)
      ensures Shape()
    {
      assert old(NodeOk(x));
      forall n | n in Nodes ensures NodeOk(n) {
        LeftRotatedNode(x, y, m, p, n);
      }
    }

    twostate lemma LeftRotatedLifts(new x: Node, new y: Node, new m: Node?, new p: Node?)
      requires old(Shape()) && LeftRotatedTree(x, y, m, p)
      ensures Lifted(x, y, m)
    {
      assert old(NodeOk(x)) && old(NodeOk(y));
      assert m != null ==> old(NodeOk(m));
      assert p != null ==> old(NodeOk(p));
    }

    method RotateLeft(x: Node)
      requires Shape() && x in Nodes && x.right != null
      modifies this`mRoot, x`right, x`parent, x`hi, x`bh
      modifies x.right`left, x.right`parent, x.right`lo, x.right`hi, x.right`bh
      modifies Only(x.right.left)`parent, Only(x.parent)`left, Only(x.parent)`right
      ensures Shape() && LeftRotated(x, old(x.right), old(x.right.left), old(x.parent))
      ensures Lifted(x, old(x.right), old(x.right.left))
    {
      ghost var y, m, p := x.right, x.right.left, x.parent;
      assert NodeOk(x) && NodeOk(y);
      assert m != null ==> NodeOk(m);
      assert p != null ==> NodeOk(p);
      LeftRotate(x);
      LeftRotatedShape(x, y, m, p);
      LeftRotatedLifts(x, y, m, p);
    }

    static ghost predicate RotatesRight(x: Node)
      reads x, x.left, x.parent
    {
      && x.left != null && x.left != x
      && (x.left.right != null ==> x.left.right !in {x, x.left})
      && (x.parent != null ==> x.parent !in {x, x.left} && x.parent != x.left.right)
    }

    // algorithm/rbtree.h:396
    method RightRotate(x: Node)
      requires RotatesRight(x)
      modifies this`mRoot, x`left, x`parent, x`lo, x`bh
      modifies x.left`right, x.left`parent, x.left`lo, x.left`hi, x.left`bh
      modifies Only(x.left.right)`parent, Only(x.parent)`right, Only(x.parent)`left
      ensures RightRotated(x, old(x.left), old(x.left.right), old(x.parent))
    {
      var y := x.left;
      x.left := y.right;
      if y.right != null {
        y.right.parent := x;
      }
      y.parent := x.parent;
      if x.parent == null {
        mRoot := y;
      } else {
        if x.parent.right == x {
          x.parent.right := y;
        } else {
          x.parent.left := y;
        }
      }
      y.right := x;
      x.parent := y;
      y.lo, y.hi, x.lo := x.lo, x.hi, y.pos + 1;
      x.bh, y.bh := y.bh, x.bh;
    }

    twostate predicate RightRotated(x: Node, y: Node, m: Node?, p: Node?)
      reads this, x, y, m, p
    {
      && mRoot == (if p == null then y else old(mRoot))
      && x.left == m && x.parent == y && x.lo == old(y.pos) + 1
      && y.right == x && y.parent == p && y.lo == old(x.lo) && y.hi == old(x.hi)
      && x.bh == old(y.bh) && y.bh == old(x.bh)
      && (m != null ==> m.parent == x)
      && (p != null ==> if old(p.right) == x then p.right == y && p.left == old(p.left)
                        else p.right == old(p.right) && p.left == y)
    }

    twostate predicate RightRotatedTree(new x: Node, new y: Node, new m: Node?, new p: Node?)
      reads this, Nodes
    {
      && Nodes == old(Nodes) && Order == old(Order)
      && x in old(Nodes) && old(x.left) == y && y in old(Nodes) && old(y.right) == m && old(x.parent) == p
      && (m != null ==> m in old(Nodes)) && (p != null ==> p in old(Nodes))
      && RightRotated(x, y, m, p)
      && x.right == old(x.right) && x.hi == old(x.hi) && y.left == old(y.left)
      && (forall n :: n in Nodes ==> n.pos == old(n.pos))
      && (forall n :: n in Nodes && n != x && n != y ==>
        && n.lo == old(n.lo) && n.hi == old(n.hi)
        && (n != m ==> n.parent == old(n.parent))
        && (n != p ==> n.right == old(n.right) && n.left == old(n.left)))
    }

    twostate lemma RightRotatedNode(new x: Node, new y: Node, new m: Node?, new p: Node?, new n: Node)
      requires old(Shape()) && RightRotatedTree(x, y, m, p) && n in Nodes
      ensures NodeOk(n)
    {
      assert old(NodeOk(x));
      assert old(NodeOk(y));
      if n == y {
        assert p != null ==> old(NodeOk(p));
      } else {
        assert old(NodeOk(n));
      }
    }

    twostate lemma RightRotatedShape(new x: Node, new y: Node, new m: Node?, new p: Node?)
      requires old(Shape()) && RightRotatedTree(x, y, m, p)
      ensures Shape()
    {
      assert old(NodeOk(x));
      forall n | n in Nodes ensures NodeOk(n) {
        RightRotatedNode(x, y, m, p, n);
      }
    }

    twostate lemma RightRotatedLifts(new x: Node, new y: Node, new m: Node?, new p: Node?)
      requires old(Shape()) && RightRotatedTree(x, y, m, p)
      ensures Lifted(x, y, m)
    {
      assert old(NodeOk(x)) && old(NodeOk(y));
      assert m != null ==> old(NodeOk(m));
      assert p != null ==> old(NodeOk(p));
    }

    method RotateRight(x: Node)
      requires Shape() && x in Nodes && x.left != null
      modifies this`mRoot, x`left, x`parent, x`lo, x`bh
      modifies x.left`right, x.left`parent, x.left`lo, x.left`hi, x.left`bh
      modifies Only(x.left.right)`parent, Only(x.parent)`right, Only(x.parent)`left
      ensures Shape() && RightRotated(x, old(x.left), old(x.left.right), old(x.parent))
      ensures Lifted(x, old(x.left), old(x.left.right))
    {
      ghost var y, m, p := x.left, x.left.right, x.parent;
      assert NodeOk(x) && NodeOk(y);
      assert m != null ==> NodeOk(m);
      assert p != null ==> NodeOk(p);
      RightRotate(x);
      RightRotatedShape(x, y, m, p);
      RightRotatedLifts(x, y, m, p);
    }

    // ---------- insertion ----------

    // Between the steps of insertFixUp only node may be wrong: it is red and
    // its parent may be red too, or it is a red root.
    ghost predicate InsertInv(node: Node)
      reads this, Nodes
    {
      node in Nodes && node.color.Red? && Shape() && Balanced(null, null) && Coloured(node, null)
    }

    static ghost predicate InsertPlace(node: Node, parent: Node, gparent: Node)
      reads node, parent
    {
      node.parent == parent && parent.parent == gparent && parent.color.Red?
    }

    // Colours and black heights agree with the old ones away from s.
    twostate predicate SamePaint(s: set<Node>)
      reads this, Nodes
    {
      Nodes == old(Nodes) && forall n :: n in Nodes && n !in s ==> n.color == old(n.color) && n.bh == old(n.bh)
    }

    twostate predicate SameLinks()
      reads this, Nodes
    {
      && Nodes == old(Nodes) && Order == old(Order) && mRoot == old(mRoot)
      && forall n :: n in Nodes ==>
        && n.left == old(n.left) && n.right == old(n.right) && n.parent == old(n.parent)
        && n.lo == old(n.lo) && n.pos == old(n.pos) && n.hi == old(n.hi)
    }

    twostate lemma SameLinksSameShape()
      requires old(Shape()) && SameLinks()
      ensures Shape()
    {
      forall n | n in Nodes ensures NodeOk(n) {
        assert old(NodeOk(n));
      }
    }

    twostate lemma InsertCase1Node(new node: Node, new parent: Node, new uncle: Node, new gparent: Node, new n: Node)
      requires node in old(Nodes) && parent in old(Nodes) && uncle in old(Nodes) && gparent in old(Nodes) && n in Nodes
      requires old(InsertInv(node) && InsertPlace(node, parent, gparent))
      requires SameLinks() && SamePaint({parent, uncle, gparent})
      requires uncle != parent && old(uncle.parent) == gparent && old(uncle.color.Red?)
      requires parent.color.Black? && uncle.color.Black? && gparent.color.Red?
      requires parent.bh == old(parent.bh) + 1 && uncle.bh == old(uncle.bh) + 1 && gparent.bh == old(gparent.bh)
      requires old(NodeOk(gparent) && NodeOk(parent) && NodeOk(uncle) && NodeOk(n))
      ensures Bal(n, null, null) && RedOk(n, gparent, null)
    {
      assert old(Bal(n, null, null) && RedOk(n, node, null));
      assert old(Bal(parent, null, null) && RedOk(parent, node, null));
      assert old(Bal(gparent, null, null) && Bal(uncle, null, null));
    }

    twostate lemma InsertCase1Keeps(new node: Node, new parent: Node, new uncle: Node, new gparent: Node)
      requires node in old(Nodes) && parent in old(Nodes) && uncle in old(Nodes) && gparent in old(Nodes)
      requires old(InsertInv(node) && InsertPlace(node, parent, gparent))
      requires SameLinks() && SamePaint({parent, uncle, gparent})
      requires uncle != parent && old(uncle.parent) == gparent && old(uncle.color.Red?)
      requires parent.color.Black? && uncle.color.Black? && gparent.color.Red?
      requires parent.bh == old(parent.bh) + 1 && uncle.bh == old(uncle.bh) + 1 && gparent.bh == old(gparent.bh)
      ensures InsertInv(gparent)
    {
      assert old(NodeOk(gparent) && NodeOk(parent) && NodeOk(uncle));
      SameLinksSameShape();
      forall n | n in Nodes ensures Bal(n, null, null) && RedOk(n, gparent, null) {
        assert old(NodeOk(n));
        InsertCase1Node(node, parent, uncle, gparent, n);
      }
    }

    lemma GrandParentIsHigher(node: Node, parent: Node, gparent: Node)
      requires InsertInv(node) && InsertPlace(node, parent, gparent) && parent in Nodes && gparent in Nodes
      ensures gparent.bh == node.bh + 1
    {
      assert NodeOk(node) && NodeOk(parent);
      assert Bal(node, null, null) && Bal(parent, null, null) && RedOk(parent, node, null);
    }

    method InsertCase1(node: Node, parent: Node, uncle: Node, gparent: Node)
      requires InsertInv(node) && InsertPlace(node, parent, gparent)
      requires parent in Nodes && uncle in Nodes && gparent in Nodes
      requires uncle != parent && uncle.parent == gparent && uncle.color.Red?
      modifies {parent, uncle, gparent}`color, {parent, uncle}`bh
      ensures InsertInv(gparent) && gparent.bh == old(node.bh) + 1
    {
      GrandParentIsHigher(node, parent, gparent);
      assert parent != gparent && uncle != gparent by {
        assert NodeOk(gparent) && NodeOk(parent) && NodeOk(uncle);
      }
      uncle.color := Black;
      parent.color := Black;
      gparent.color := Red;
      uncle.bh, parent.bh := uncle.bh + 1, parent.bh + 1;
      InsertCase1Keeps(node, parent, uncle, gparent);
    }

    twostate lemma InsertCase2Node(new x: Node, new y: Node, new m: Node?, new n: Node)
      requires y in old(Nodes) && old(InsertInv(y)) && Lifted(x, y, m) && SamePaint({x, y}) && n in Nodes
      requires old(x.color.Red?) && x.color.Red? && y.color.Red?
      ensures Bal(n, null, null) && RedOk(n, x, null)
    {
      assert old(Bal(n, null, null) && RedOk(n, y, null));
      assert old(Bal(x, null, null) && RedOk(x, y, null));
      assert old(Bal(y, null, null));
    }

    twostate lemma InsertCase2Keeps(new x: Node, new y: Node, new m: Node?)
      requires y in old(Nodes) && old(InsertInv(y)) && Lifted(x, y, m) && SamePaint({x, y}) && Shape()
      requires old(x.color.Red?) && x.color.Red? && y.color.Red?
      ensures InsertInv(x)
    {
      forall n | n in Nodes ensures Bal(n, null, null) && RedOk(n, x, null) {
        InsertCase2Node(x, y, m, n);
      }
    }

    static ghost predicate Children(x: Node, y: Node?, sibling: Node?)
      reads x
    {
      (x.left == y && x.right == sibling) || (x.left == sibling && x.right == y)
    }

    static ghost predicate IsBlack(n: Node?)
      reads n
    {
      n == null || n.color.Black?
    }

    twostate lemma InsertCase3Node(new node: Node, new x: Node, new y: Node, new m: Node?, new uncle: Node?,
                                   new n: Node)
      requires node in old(Nodes) && old(InsertInv(node)) && Lifted(x, y, m) && SamePaint({x, y}) && n in Nodes
      requires uncle != null ==> uncle in old(Nodes)
      requires old(node.parent) == y && node != m && old(y.color.Red?) && old(Children(x, y, uncle) && IsBlack(uncle))
      requires y.color.Black? && x.color.Red? && old(NodeOk(n))
      ensures Bal(n, null, null) && RedOk(n, node, null)
    {
      assert old(Bal(n, null, null) && RedOk(n, node, null));
      assert old(Bal(x, null, null) && RedOk(x, node, null));
      assert old(Bal(y, null, null) && RedOk(y, node, null));
    }

    twostate lemma InsertCase3Keeps(new node: Node, new x: Node, new y: Node, new m: Node?, new uncle: Node?)
      requires node in old(Nodes) && old(InsertInv(node)) && Lifted(x, y, m) && SamePaint({x, y}) && Shape()
      requires uncle != null ==> uncle in old(Nodes)
      requires old(node.parent) == y && node != m && old(y.color.Red?) && old(Children(x, y, uncle) && IsBlack(uncle))
      requires y.color.Black? && x.color.Red? && node.color.Red?
      ensures InsertInv(node)
    {
      forall n | n in Nodes ensures Bal(n, null, null) && RedOk(n, node, null) {
        assert old(NodeOk(n));
        InsertCase3Node(node, x, y, m, uncle, n);
      }
    }

    method InsertCase2Left(node: Node, parent: Node, gparent: Node)
      requires InsertInv(node) && InsertPlace(node, parent, gparent) && parent in Nodes && gparent in Nodes
      requires gparent.left == parent && parent.right == node
      modifies this`mRoot, Nodes`left, Nodes`right, Nodes`parent, Nodes`lo, Nodes`hi, Nodes`bh
      ensures InsertInv(parent) && InsertPlace(parent, node, gparent)
      ensures gparent.left == node && gparent.right == old(gparent.right) && node.left == parent
    {
      hide Bal, RedOk, Balanced, Coloured, NodeOk, Shape;
      Surroundings(parent);
      Surroundings(node);
      Surroundings(gparent);
      ghost var m := node.left;
      RotateLeft(parent);
      InsertCase2Keeps(parent, node, m);
    }

    method InsertCase3Left(node: Node, parent: Node, gparent: Node)
      requires InsertInv(node) && InsertPlace(node, parent, gparent) && parent in Nodes && gparent in Nodes
      requires gparent.left == parent && parent.left == node && IsBlack(gparent.right)
      modifies this`mRoot, Nodes`left, Nodes`right, Nodes`parent, Nodes`lo, Nodes`hi, Nodes`bh, {parent, gparent}`color
      ensures InsertInv(node) && node.parent == parent && parent.color.Black?
    {
      hide Bal, RedOk, Balanced, Coloured, NodeOk, Shape;
      Surroundings(parent);
      Surroundings(gparent);
      ghost var m, uncle := parent.right, gparent.right;
      parent.color := Black;
      gparent.color := Red;
      SameLinksSameShape();
      RotateRight(gparent);
      InsertCase3Keeps(node, gparent, parent, m, uncle);
    }

    method InsertCase2Right(node: Node, parent: Node, gparent: Node)
      requires InsertInv(node) && InsertPlace(node, parent, gparent) && parent in Nodes && gparent in Nodes
      requires gparent.right == parent && parent.left == node
      modifies this`mRoot, Nodes`left, Nodes`right, Nodes`parent, Nodes`lo, Nodes`hi, Nodes`bh
      ensures InsertInv(parent) && InsertPlace(parent, node, gparent)
      ensures gparent.right == node && gparent.left == old(gparent.left) && node.right == parent
    {
      hide Bal, RedOk, Balanced, Coloured, NodeOk, Shape;
      Surroundings(parent);
      Surroundings(node);
      Surroundings(gparent);
      ghost var m := node.right;
      RotateRight(parent);
      InsertCase2Keeps(parent, node, m);
    }

    method InsertCase3Right(node: Node, parent: Node, gparent: Node)
      requires InsertInv(node) && InsertPlace(node, parent, gparent) && parent in Nodes && gparent in Nodes
      requires gparent.right == parent && parent.right == node && IsBlack(gparent.left)
      modifies this`mRoot, Nodes`left, Nodes`right, Nodes`parent, Nodes`lo, Nodes`hi, Nodes`bh, {parent, gparent}`color
      ensures InsertInv(node) && node.parent == parent && parent.color.Black?
    {
      hide Bal, RedOk, Balanced, Coloured, NodeOk, Shape;
      Surroundings(parent);
      Surroundings(gparent);
      ghost var m, uncle := parent.left, gparent.left;
      parent.color := Black;
      gparent.color := Red;
      SameLinksSameShape();
      RotateLeft(gparent);
      InsertCase3Keeps(node, gparent, parent, m, uncle);
    }

    twostate lemma BlackRootNode(new node: Node, new n: Node)
      requires node in old(Nodes) && old(InsertInv(node)) && SameLinks() && n in Nodes
      requires mRoot in Nodes && SamePaint({mRoot}) && mRoot.color.Black?
      requires mRoot.bh == old(mRoot.bh) + (if old(mRoot.color.Red?) then 1 else 0)
      requires old(node.parent == null || node.parent.color.Black?) && old(NodeOk(node) && NodeOk(n))
      ensures Bal(n, null, null) && RedOk(n, null, null)
    {
      assert old(Bal(n, null, null) && RedOk(n, node, null));
      assert old(RedOk(mRoot, node, null) && NodeOk(mRoot));
    }

    twostate lemma BlackRootKeeps(new node: Node)
      requires node in old(Nodes) && old(InsertInv(node)) && SameLinks()
      requires mRoot in Nodes && SamePaint({mRoot}) && mRoot.color.Black?
      requires mRoot.bh == old(mRoot.bh) + (if old(mRoot.color.Red?) then 1 else 0)
      requires old(node.parent == null || node.parent.color.Black?)
      ensures Shape() && Balanced(null, null) && Coloured(null, null)
    {
      SameLinksSameShape();
      assert old(NodeOk(node));
      forall n | n in Nodes ensures Bal(n, null, null) && RedOk(n, null, null) {
        assert old(NodeOk(n));
        BlackRootNode(node, n);
      }
    }

    method BlackenRoot(node: Node)
      requires InsertInv(node) && (node.parent == null || node.parent.color.Black?)
      modifies Nodes`color, Nodes`bh
      ensures Shape() && Balanced(null, null) && Coloured(null, null)
    {
      assert NodeOk(node);
      mRoot.bh := mRoot.bh + (if mRoot.color.Red? then 1 else 0);
      mRoot.color := Black;
      BlackRootKeeps(node);
    }

    // The red parent of node cannot be the root, so it has a parent itself.
    lemma GrandParentExists(node: Node)
      requires InsertInv(node) && node.parent != null && node.parent.color.Red?
      ensures node.parent in Nodes && node.parent.parent in Nodes
      ensures node.parent.left == node || node.parent.right == node
      ensures var parent := node.parent; var gparent := parent.parent;
        && (gparent.left == parent || gparent.right == parent) && gparent.left != gparent.right
        && (gparent.left != null ==> gparent.left in Nodes && gparent.left.parent == gparent)
        && (gparent.right != null ==> gparent.right in Nodes && gparent.right.parent == gparent)
        && node.hi - node.lo < gparent.hi - gparent.lo <= |Order|
    {
      assert NodeOk(node);
      assert NodeOk(node.parent) && RedOk(node.parent, node, null);
      assert NodeOk(node.parent.parent);
    }

    // algorithm/rbtree.h:440.  Whatever the size of the tree, the repair takes
    // at most two rotations, in at most log2(n + 1) + 1 iterations.
    method InsertFixUp(z: Node) returns (ghost rotations: nat, ghost iterations: nat)
      requires InsertInv(z)
      modifies this`mRoot, Nodes`left, Nodes`right, Nodes`parent, Nodes`color, Nodes`lo, Nodes`hi, Nodes`bh
      ensures Shape() && Balanced(null, null) && Coloured(null, null)
      ensures rotations <= 2 && Pow2(iterations) <= 2 * (|Order| + 1)
    {
      hide Pow2;
      assert Bal(z, null, null);
      var node: Node := z;
      rotations, iterations := 0, 0;
      Pow2Zero();
      assert NodeOk(node);
      while node.parent != null && node.parent.color == Red
        invariant InsertInv(node) && NodeOk(node)
        invariant rotations <= 2
        invariant rotations > 0 ==> node.parent != null && node.parent.color.Black?
        invariant rotations == 0 ==> iterations <= node.bh
        invariant Pow2(iterations) <= 2 * (|Order| + 1)
        decreases if rotations == 0 then 1 else 0, |Order| - (node.hi - node.lo)
      {
        ClimbBound(iterations, node, null, null);
        iterations := iterations + 1;
        var parent := node.parent;
        GrandParentExists(node);
        var gparent := parent.parent;
        if parent == gparent.left {
          var uncle := gparent.right;
          if uncle != null && uncle.color == Red {
            InsertCase1(node, parent, uncle, gparent);
            node := gparent;
            assert NodeOk(node);
            continue;
          }
          if parent.right == node {
            InsertCase2Left(node, parent, gparent);
            rotations := rotations + 1;
            node, parent := parent, node;
          }
          InsertCase3Left(node, parent, gparent);
          rotations := rotations + 1;
          assert NodeOk(node);
        } else {
          var uncle := gparent.left;
          if uncle != null && uncle.color == Red {
            InsertCase1(node, parent, uncle, gparent);
            node := gparent;
            assert NodeOk(node);
            continue;
          }
          if parent.left == node {
            InsertCase2Right(node, parent, gparent);
            rotations := rotations + 1;
            node, parent := parent, node;
          }
          InsertCase3Right(node, parent, gparent);
          rotations := rotations + 1;
          assert NodeOk(node);
        }
      }
      BlackenRoot(node);
    }


    static function Shift(v: int, k: int): int { if v >= k then v + 1 else v }

    // Makes room for a new node at index k of the in-order sequence.  Interval
    // bounds equal to b or above move up with it.
    ghost method ShiftUp(k: int, b: int)
      modifies Nodes`lo, Nodes`pos, Nodes`hi
      ensures forall n :: n in Nodes ==>
        n.pos == Shift(old(n.pos), k) && n.lo == Shift(old(n.lo), b) && n.hi == Shift(old(n.hi), b)
    {
      forall n | n in Nodes { n.pos := Shift(n.pos, k); }
      forall n | n in Nodes { n.lo := Shift(n.lo, b); }
      forall n | n in Nodes { n.hi := Shift(n.hi, b); }
    }

    // z has been hung under y, as its left child when left holds.
    twostate predicate Hung(new z: Node, new y: Node?, new left: bool, new k: int)
      reads this, Nodes
    {
      && z !in old(Nodes) && Nodes == old(Nodes) + {z}
      && z.left == null && z.right == null && z.parent == y && z.lo == k && z.pos == k && z.hi == k + 1
      && (y == null ==> old(mRoot) == null && mRoot == z && k == 0)
      && (y != null ==>
        && y in old(Nodes) && mRoot == old(mRoot)
        && (if left then old(y.left) == null && y.left == z && y.right == old(y.right) && k == old(y.pos)
            else old(y.right) == null && y.right == z && y.left == old(y.left) && k == old(y.pos) + 1))
      && 0 <= k <= |old(Order)| && Order == old(Order)[..k] + [z] + old(Order)[k..]
      && (forall n :: n in old(Nodes) ==>
        && n.parent == old(n.parent) && (n != y ==> n.left == old(n.left) && n.right == old(n.right))
        && n.pos == Shift(old(n.pos), k)
        && n.lo == Shift(old(n.lo), if left then k + 1 else k)
        && n.hi == Shift(old(n.hi), if left then k + 1 else k))
    }

    twostate lemma HungNode(new z: Node, new y: Node?, new left: bool, new k: int, new n: Node)
      requires old(Shape()) && Hung(z, y, left, k) && n in Nodes
      ensures NodeOk(n)
    {
      if n in old(Nodes) {
        assert old(NodeOk(n));
      }
      assert y != null ==> old(NodeOk(y));
    }

    twostate lemma HungIndex(new z: Node, new y: Node?, new left: bool, new k: int, new i: int)
      requires old(Shape()) && Hung(z, y, left, k) && 0 <= i < |Order|
      ensures Order[i] in Nodes && Order[i].pos == i
    {
      if i != k {
        assert Order[i] == old(Order)[if i < k then i else i - 1];
      }
    }

    twostate lemma HungRoot(new z: Node, new y: Node?, new left: bool, new k: int)
      requires old(Shape()) && Hung(z, y, left, k)
      ensures mRoot in Nodes && mRoot.parent == null && mRoot.lo == 0 && mRoot.hi == |Order|
    {
      if y != null {
        assert old(NodeOk(y));
        assert old(mRoot != null && NodeOk(mRoot));
      }
    }

    twostate lemma HungShape(new z: Node, new y: Node?, new left: bool, new k: int)
      requires old(Shape()) && Hung(z, y, left, k)
      ensures Shape()
    {
      HungRoot(z, y, left, k);
      forall n | n in Nodes ensures NodeOk(n) {
        HungNode(z, y, left, k, n);
      }
      forall i | 0 <= i < |Order| ensures Order[i] in Nodes && Order[i].pos == i {
        HungIndex(z, y, left, k, i);
      }
    }

    twostate lemma HungPaint(new z: Node, new y: Node?, new left: bool, new k: int)
      requires old(Shape() && Balanced(null, null) && Coloured(null, null)) && Hung(z, y, left, k)
      requires z.color.Red? && z.bh == 0 && forall n :: n in old(Nodes) ==> n.color == old(n.color) && n.bh == old(n.bh)
      ensures Balanced(null, null) && Coloured(z, null)
    {
      forall n | n in Nodes ensures Bal(n, null, null) && RedOk(n, z, null) {
        if n in old(Nodes) {
          assert old(NodeOk(n));
          assert old(Bal(n, null, null) && RedOk(n, null, null));
        }
        assert y != null ==> old(Bal(y, null, null));
      }
    }

    static ghost function KeysOf(order: seq<Node>): (keys: seq<int>)
      ensures |keys| == |order| && forall i :: 0 <= i < |keys| ==> keys[i] == order[i].key
    {
      seq(|order|, i requires 0 <= i < |order| => order[i].key)
    }

    ghost function Keys(): seq<int>
      reads this
    {
      KeysOf(Order)
    }

    ghost predicate Valid()
      reads this, Nodes
    {
      Shape() && Balanced(null, null) && Coloured(null, null) && Sorted(Keys())
    }

    static lemma InsertKeepsSorted(order: seq<Node>, z: Node, k: int)
      requires 0 <= k <= |order| && Sorted(KeysOf(order))
      requires forall i :: 0 <= i < k ==> order[i].key <= z.key
      requires forall i :: k <= i < |order| ==> z.key < order[i].key
      ensures Sorted(KeysOf(order[..k] + [z] + order[k..]))
    {
      var keys := KeysOf(order);
      assert KeysOf(order[..k] + [z] + order[k..]) == keys[..k] + [z.key] + keys[k..];
    }

    method HangUnder(node: Node, y: Node?, ghost left: bool, ghost k: int)
      requires Shape() && node !in Nodes && node.left == null && node.right == null && 0 <= k <= |Order|
      requires if y == null then mRoot == null && k == 0 && Nodes == {}
               else y in Nodes && left == (node.key < y.key) &&
                    (if left then y.left == null && k == y.pos else y.right == null && k == y.pos + 1)
      modifies this, node, Only(y)`left, Only(y)`right, Nodes`lo, Nodes`pos, Nodes`hi
      ensures Hung(node, y, left, k) && node.color.Red? && node.bh == 0
    {
      node.parent := y;
      if y != null {
        if node.key < y.key {
          y.left := node;
        } else {
          y.right := node;
        }
      } else {
        mRoot := node;
      }
      node.color := Red;
      ShiftUp(k, if left then k + 1 else k);
      node.lo, node.pos, node.hi, node.bh := k, k, k + 1, 0;
      Order := Order[..k] + [node] + Order[k..];
      Nodes := Nodes + {node};
    }

    // ---------- depth ----------

    // Twice the black height, plus one for a red node.  It drops at every step
    // down, so it bounds the length of every path from n.
    static ghost function Depth(n: Node?): int
      reads n
    {
      if n == null then 0 else 2 * n.bh + 1 - Blk(n.color)
    }

    lemma DepthDrops(n: Node)
      requires Valid() && n in Nodes
      ensures Depth(n) >= 1
      ensures n.left != null ==> n.left in Nodes && Depth(n.left) < Depth(n)
      ensures n.right != null ==> n.right in Nodes && Depth(n.right) < Depth(n)
    {
      assert NodeOk(n) && Bal(n, null, null);
      assert n.left != null ==> Bal(n.left, null, null) && RedOk(n.left, null, null);
      assert n.right != null ==> Bal(n.right, null, null) && RedOk(n.right, null, null);
    }

    // No path is longer than twice the logarithm of the number of nodes plus 1.
    lemma DepthBound(steps: nat)
      requires Valid() && steps <= Depth(mRoot)
      ensures Pow2(steps) <= (|Order| + 1) * (|Order| + 1)
    {
      if mRoot != null {
        assert Bal(mRoot, null, null) && RedOk(mRoot, null, null);
        SizeBound(mRoot, null, null);
        Pow2Monotone(steps, 2 * mRoot.bh);
        Pow2Sum(mRoot.bh, mRoot.bh);
        SquareMonotone(Pow2(mRoot.bh), |Order| + 1);
      }
    }

    lemma OrderIsSorted()
      requires Valid()
      ensures forall i, j :: 0 <= i < j < |Order| ==> Order[i].key <= Order[j].key
    {
      forall i, j | 0 <= i < j < |Order| ensures Order[i].key <= Order[j].key {
        assert Keys()[i] <= Keys()[j];
      }
    }

    lemma RootSpans()
      requires Shape()
      ensures mRoot != null ==> mRoot in Nodes && mRoot.lo == 0 && mRoot.hi == |Order|
      ensures mRoot == null ==> Nodes == {} && Order == []
    {
      assert forall n :: n in Nodes ==> NodeOk(n);
    }

    // The stretch of a node is that of its left child, itself, and that of its
    // right child.
    lemma ChildrenSpan(n: Node)
      requires Shape() && n in Nodes
      ensures 0 <= n.lo <= n.pos < n.hi <= |Order| && Order[n.pos] == n
      ensures if n.left == null then n.lo == n.pos else n.left in Nodes && n.left.lo == n.lo && n.left.hi == n.pos
      ensures if n.right == null then n.hi == n.pos + 1
              else n.right in Nodes && n.right.lo == n.pos + 1 && n.right.hi == n.hi
    {
      assert NodeOk(n);
    }

    // algorithm/rbtree.h:526-537
    method FindPlace(key: int) returns (y: Node?, ghost left: bool, ghost k: int, ghost steps: nat)
      requires Valid()
      ensures 0 <= k <= |Order|
      ensures forall i :: 0 <= i < k ==> Order[i].key <= key
      ensures forall i :: k <= i < |Order| ==> key < Order[i].key
      ensures if y == null then mRoot == null && k == 0 && Nodes == {}
              else y in Nodes && left == (key < y.key) &&
                   (if left then y.left == null && k == y.pos else y.right == null && k == y.pos + 1)
      ensures Pow2(steps) <= (|Order| + 1) * (|Order| + 1)
    {
      OrderIsSorted();
      RootSpans();
      hide Shape, NodeOk, Balanced, Coloured, Pow2, Sorted;
      y := null;
      var x := mRoot;
      ghost var lo, hi := 0, |Order|;
      left, steps := false, 0;
      while x != null
        invariant x != null ==> x in Nodes && x.lo == lo && x.hi == hi
        invariant 0 <= lo <= hi <= |Order|
        invariant forall i :: 0 <= i < lo ==> Order[i].key <= key
        invariant forall i :: hi <= i < |Order| ==> key < Order[i].key
        invariant y == null ==> x == mRoot && lo == 0 && hi == |Order|
        invariant y != null ==> y in Nodes && left == (key < y.key)
        invariant y != null ==> if left then y.left == x && lo == y.lo && hi == y.pos
                                else y.right == x && lo == y.pos + 1 && hi == y.hi
        invariant steps + Depth(x) <= Depth(mRoot)
        decreases hi - lo
      {
        y := x;
        ChildrenSpan(x);
        DepthDrops(x);
        left := key < x.key;
        if key < x.key {
          x := x.left;
          hi := y.pos;
        } else {
          x := x.right;
          lo := y.pos + 1;
        }
        steps := steps + 1;
      }
      k := lo;
      if y != null {
        ChildrenSpan(y);
      }
      DepthBound(steps);
    }

    // algorithm/rbtree.h:524.  The new node goes behind every key that is not
    // larger and before every key that is.
    method InsertNode(node: Node) returns (ghost k: int, ghost rotations: nat, ghost steps: nat)
      requires Valid() && node !in Nodes && node.left == null && node.right == null
      modifies this, Nodes, node
      ensures Valid() && Nodes == old(Nodes) + {node}
      ensures 0 <= k <= |old(Order)| && Order == old(Order)[..k] + [node] + old(Order)[k..]
      ensures forall i :: 0 <= i < k ==> old(Order)[i].key <= node.key
      ensures forall i :: k <= i < |old(Order)| ==> node.key < old(Order)[i].key
      ensures rotations <= 2 && Pow2(steps) <= (|old(Order)| + 1) * (|old(Order)| + 1)
    {
      var y;
      ghost var left;
      y, left, k, steps := FindPlace(node.key);
      InsertKeepsSorted(Order, node, k);
      HangUnder(node, y, left, k);
      HungShape(node, y, left, k);
      HungPaint(node, y, left, k);
      ghost var iterations;
      rotations, iterations := InsertFixUp(node);
    }

    // ---------- removal ----------

    // Between the steps of removeFixUp the subtree of node, a child of parent
    // that may be null, is one black node short, and if node is red it may
    // have a red parent or red children.
    ghost predicate RemoveInv(node: Node?, parent: Node?)
      reads this, Nodes
    {
      && Shape() && Balanced(parent, node) && Coloured(node, node)
      && (parent != null ==> parent in Nodes)
      && (node != null ==> node in Nodes && node.parent == parent)
      && (node == null ==> if parent == null then mRoot == null
                           else parent.left == null <==> parent.right != null)
    }

    lemma SiblingExists(node: Node?, parent: Node?)
      requires RemoveInv(node, parent) && node != mRoot
      requires node == null || node.color.Black?
      ensures parent != null && parent != node
      ensures if parent.left == node then parent.right in Nodes && parent.right.parent == parent
              else parent.right == node && parent.left in Nodes && parent.left.parent == parent
      ensures (if node == null then 0 else node.hi - node.lo) < parent.hi - parent.lo <= |Order|
    {
      assert node != null ==> NodeOk(node) && Bal(node, parent, node);
      assert NodeOk(parent) && Bal(parent, parent, node);
    }

    twostate lemma RemoveCase1Node(new hx: Node?, new x: Node, new y: Node, new m: Node?, new n: Node)
      requires hx != null ==> hx in old(Nodes)
      requires x in old(Nodes) && old(RemoveInv(hx, x) && IsBlack(hx))
      requires Lifted(x, y, m) && SamePaint({x, y}) && n in Nodes
      requires old(Children(x, hx, y) && y.color.Red? && NodeOk(x) && NodeOk(n) && NodeOk(y))
      requires y.color.Black? && x.color.Red?
      ensures m != null && m.color.Black?
      ensures Bal(n, x, hx) && RedOk(n, hx, hx)
    {
      hide Shape;
      assert old(Bal(n, x, hx) && RedOk(n, hx, hx));
      assert old(Bal(x, x, hx) && RedOk(x, hx, hx));
      assert old(Bal(y, x, hx) && RedOk(y, hx, hx));
      assert hx != null ==> old(Bal(hx, x, hx));
      assert m != null ==> old(RedOk(m, hx, hx));
    }

    twostate lemma RemoveCase2Node(new hx: Node?, new x: Node, new y: Node, new n: Node)
      requires (hx != null ==> hx in old(Nodes)) && x in old(Nodes) && y in old(Nodes) && n in Nodes
      requires old(RemoveInv(hx, x) && IsBlack(hx)) && SameLinks() && SamePaint({x, y})
      requires old(Children(x, hx, y) && y.color.Black? && NodeOk(x) && NodeOk(n) && NodeOk(y))
      requires old((y.left != null ==> y.left.color.Black?) && (y.right != null ==> y.right.color.Black?))
      requires y.color.Red? && x.color == old(x.color) && x.bh == old(x.bh) - 1 && y.bh == old(y.bh) - 1
      ensures Bal(n, x.parent, x) && RedOk(n, x, x)
    {
      hide Shape;
      assert old(Bal(n, x, hx) && RedOk(n, hx, hx));
      assert old(Bal(x, x, hx) && RedOk(x, hx, hx));
      assert old(Bal(y, x, hx));
    }

    twostate lemma RemoveCase3Node(new hx: Node?, new hp: Node, new x: Node, new y: Node, new m: Node?, new w: Node?,
                                   new n: Node)
      requires (hx != null ==> hx in old(Nodes)) && (w != null ==> w in old(Nodes)) && hp in old(Nodes)
      requires old(RemoveInv(hx, hp) && IsBlack(hx)) && Lifted(x, y, m) && SamePaint({x, y}) && n in Nodes
      requires old(Children(hp, hx, x) && Children(x, y, w) && IsBlack(w) && x.color.Black? && y.color.Red?)
      requires old(NodeOk(hp) && NodeOk(x) && NodeOk(y) && NodeOk(n))
      requires y.color.Black? && x.color.Red?
      ensures Bal(n, hp, hx) && RedOk(n, hx, hx)
    {
      hide Shape;
      assert old(Bal(n, hp, hx) && RedOk(n, hx, hx));
      assert old(Bal(x, hp, hx) && Bal(y, hp, hx));
      assert m != null ==> old(RedOk(m, hx, hx));
    }

    twostate lemma RemoveCase4Node(new hx: Node?, new x: Node, new y: Node, new m: Node?, new w: Node, new n: Node)
      requires (hx != null ==> hx in old(Nodes)) && x in old(Nodes) && w in old(Nodes)
      requires old(RemoveInv(hx, x) && IsBlack(hx)) && Lifted(x, y, m) && SamePaint({x, y, w}) && n in Nodes
      requires old(Children(x, hx, y) && Children(y, m, w) && y.color.Black? && w.color.Red?)
      requires old(NodeOk(x) && NodeOk(y) && NodeOk(w) && NodeOk(n))
      requires y.color == old(x.color) && x.color.Black? && w.color.Black? && w.bh == old(w.bh) + 1
      ensures Bal(n, null, null) && RedOk(n, null, null)
    {
      hide Shape;
      assert old(Bal(n, x, hx) && RedOk(n, hx, hx));
      assert old(Bal(x, x, hx) && RedOk(x, hx, hx));
      assert old(Bal(y, x, hx) && Bal(w, x, hx));
      assert hx != null ==> old(Bal(hx, x, hx));
    }

    twostate lemma RemoveCase1Keeps(new hx: Node?, new x: Node, new y: Node, new m: Node?)
      requires hx != null ==> hx in old(Nodes)
      requires x in old(Nodes) && old(RemoveInv(hx, x) && IsBlack(hx)) && Lifted(x, y, m) && SamePaint({x, y})
      requires old(Children(x, hx, y) && y.color.Red?) && y.color.Black? && x.color.Red?
      requires Shape() && Children(x, hx, m)
      ensures RemoveInv(hx, x) && m != null && m.color.Black?
    {
      assert old(NodeOk(x) && NodeOk(y));
      RemoveCase1Node(hx, x, y, m, x);
      forall n | n in Nodes ensures Bal(n, x, hx) && RedOk(n, hx, hx) {
        assert old(NodeOk(n));
        RemoveCase1Node(hx, x, y, m, n);
      }
    }

    twostate lemma RemoveCase2Keeps(new hx: Node?, new x: Node, new y: Node)
      requires (hx != null ==> hx in old(Nodes)) && x in old(Nodes) && y in old(Nodes)
      requires old(RemoveInv(hx, x) && IsBlack(hx)) && SameLinks() && SamePaint({x, y})
      requires old(Children(x, hx, y) && y.color.Black?)
      requires old((y.left != null ==> y.left.color.Black?) && (y.right != null ==> y.right.color.Black?))
      requires y.color.Red? && x.color == old(x.color) && x.bh == old(x.bh) - 1 && y.bh == old(y.bh) - 1
      ensures RemoveInv(x, x.parent)
    {
      assert old(NodeOk(x) && NodeOk(y));
      SameLinksSameShape();
      forall n | n in Nodes ensures Bal(n, x.parent, x) && RedOk(n, x, x) {
        assert old(NodeOk(n));
        RemoveCase2Node(hx, x, y, n);
      }
    }

    twostate lemma RemoveCase3Keeps(new hx: Node?, new hp: Node, new x: Node, new y: Node, new m: Node?, new w: Node?)
      requires (hx != null ==> hx in old(Nodes)) && (w != null ==> w in old(Nodes)) && hp in old(Nodes)
      requires old(RemoveInv(hx, hp) && IsBlack(hx)) && Lifted(x, y, m) && SamePaint({x, y})
      requires old(Children(hp, hx, x) && Children(x, y, w) && IsBlack(w) && x.color.Black? && y.color.Red?)
      requires y.color.Black? && x.color.Red?
      requires Shape() && Children(hp, hx, y)
      ensures RemoveInv(hx, hp)
    {
      assert old(NodeOk(hp) && NodeOk(x) && NodeOk(y));
      assert hx != null ==> old(NodeOk(hx));
      forall n | n in Nodes ensures Bal(n, hp, hx) && RedOk(n, hx, hx) {
        assert old(NodeOk(n));
        RemoveCase3Node(hx, hp, x, y, m, w, n);
      }
    }

    twostate lemma RemoveCase4Keeps(new hx: Node?, new x: Node, new y: Node, new m: Node?, new w: Node)
      requires (hx != null ==> hx in old(Nodes)) && x in old(Nodes) && w in old(Nodes)
      requires old(RemoveInv(hx, x) && IsBlack(hx)) && Lifted(x, y, m) && SamePaint({x, y, w})
      requires old(Children(x, hx, y) && Children(y, m, w) && y.color.Black? && w.color.Red?)
      requires y.color == old(x.color) && x.color.Black? && w.color.Black? && w.bh == old(w.bh) + 1
      ensures Balanced(null, null) && Coloured(null, null)
    {
      assert old(NodeOk(x) && NodeOk(y) && NodeOk(w));
      forall n | n in Nodes ensures Bal(n, null, null) && RedOk(n, null, null) {
        assert old(NodeOk(n));
        RemoveCase4Node(hx, x, y, m, w, n);
      }
    }

    method RemoveCase2(node: Node?, parent: Node, other: Node)
      requires RemoveInv(node, parent) && IsBlack(node) && parent in Nodes && other in Nodes
      requires Children(parent, node, other) && other.color.Black? && IsBlack(other.left) && IsBlack(other.right)
      modifies {other}`color, {parent, other}`bh
      ensures RemoveInv(parent, parent.parent) && parent.bh == old(BhOf(node)) + Blk(parent.color)
    {
      assert NodeOk(parent) && NodeOk(other);
      assert Bal(parent, parent, node) && (node != null ==> Bal(node, parent, node));
      other.color := Red;
      parent.bh, other.bh := parent.bh - 1, other.bh - 1;
      RemoveCase2Keeps(node, parent, other);
    }

    method RemoveCase1Left(node: Node?, parent: Node, other: Node)
      requires RemoveInv(node, parent) && IsBlack(node) && parent in Nodes && other in Nodes
      requires parent.left == node && parent.right == other && other.color.Red?
      modifies this`mRoot, Nodes`left, Nodes`right, Nodes`parent, Nodes`lo, Nodes`hi, Nodes`bh, {parent, other}`color
      ensures RemoveInv(node, parent) && IsBlack(node) && parent.color.Red? && parent != node
      ensures parent.left == node && parent.right in Nodes && parent.right.color.Black?
    {
      hide Bal, RedOk, Balanced, Coloured, NodeOk, Shape;
      Surroundings(parent);
      Surroundings(other);
      ghost var m := other.left;
      other.color := Black;
      parent.color := Red;
      SameLinksSameShape();
      RotateLeft(parent);
      RemoveCase1Keeps(node, parent, other, m);
      Surroundings(parent);
    }

    method RemoveCase3Left(node: Node?, parent: Node, other: Node)
      requires RemoveInv(node, parent) && IsBlack(node) && parent in Nodes && other in Nodes
      requires parent.left == node && parent.right == other && other.color.Black?
      requires other.left in Nodes && other.left.color.Red? && IsBlack(other.right)
      modifies this`mRoot, Nodes`left, Nodes`right, Nodes`parent, Nodes`lo, Nodes`hi, Nodes`bh
      modifies {other, other.left}`color
      ensures RemoveInv(node, parent) && IsBlack(node) && parent.left == node
      ensures parent.right == old(other.left) && parent.right in Nodes && parent.right.color.Black?
      ensures parent.right.right == other && other.color.Red?
    {
      hide Bal, RedOk, Balanced, Coloured, NodeOk, Shape;
      Surroundings(parent);
      Surroundings(other);
      Surroundings(other.left);
      ghost var y, m, w := other.left, other.left.right, other.right;
      other.left.color := Black;
      other.color := Red;
      SameLinksSameShape();
      RotateRight(other);
      RemoveCase3Keeps(node, parent, other, y, m, w);
    }

    method RemoveCase4Left(node: Node?, parent: Node, other: Node)
      requires RemoveInv(node, parent) && IsBlack(node) && parent in Nodes && other in Nodes
      requires parent.left == node && parent.right == other && other.color.Black?
      requires other.right in Nodes && other.right.color.Red?
      modifies this`mRoot, Nodes`left, Nodes`right, Nodes`parent, Nodes`lo, Nodes`hi, Nodes`bh
      modifies {parent, other, other.right}`color
      ensures Shape() && Balanced(null, null) && Coloured(null, null)
    {
      hide Bal, RedOk, Balanced, Coloured, NodeOk, Shape;
      Surroundings(parent);
      Surroundings(other);
      ghost var m, w := other.left, other.right;
      other.color := parent.color;
      parent.color := Black;
      other.right.color := Black;
      w.bh := w.bh + 1;
      SameLinksSameShape();
      RotateLeft(parent);
      RemoveCase4Keeps(node, parent, other, m, w);
    }

    method RemoveCase1Right(node: Node?, parent: Node, other: Node)
      requires RemoveInv(node, parent) && IsBlack(node) && parent in Nodes && other in Nodes
      requires parent.right == node && parent.left == other && other.color.Red?
      modifies this`mRoot, Nodes`left, Nodes`right, Nodes`parent, Nodes`lo, Nodes`hi, Nodes`bh, {parent, other}`color
      ensures RemoveInv(node, parent) && IsBlack(node) && parent.color.Red? && parent != node
      ensures parent.right == node && parent.left in Nodes && parent.left.color.Black?
    {
      hide Bal, RedOk, Balanced, Coloured, NodeOk, Shape;
      Surroundings(parent);
      Surroundings(other);
      ghost var m := other.right;
      other.color := Black;
      parent.color := Red;
      SameLinksSameShape();
      RotateRight(parent);
      RemoveCase1Keeps(node, parent, other, m);
      Surroundings(parent);
    }

    method RemoveCase3Right(node: Node?, parent: Node, other: Node)
      requires RemoveInv(node, parent) && IsBlack(node) && parent in Nodes && other in Nodes
      requires parent.right == node && parent.left == other && other.color.Black?
      requires other.right in Nodes && other.right.color.Red? && IsBlack(other.left)
      modifies this`mRoot, Nodes`left, Nodes`right, Nodes`parent, Nodes`lo, Nodes`hi, Nodes`bh
      modifies {other, other.right}`color
      ensures RemoveInv(node, parent) && IsBlack(node) && parent.right == node
      ensures parent.left == old(other.right) && parent.left in Nodes && parent.left.color.Black?
      ensures parent.left.left == other && other.color.Red?
    {
      hide Bal, RedOk, Balanced, Coloured, NodeOk, Shape;
      Surroundings(parent);
      Surroundings(other);
      Surroundings(other.right);
      ghost var y, m, w := other.right, other.right.left, other.left;
      other.right.color := Black;
      other.color := Red;
      SameLinksSameShape();
      RotateLeft(other);
      RemoveCase3Keeps(node, parent, other, y, m, w);
    }

    method RemoveCase4Right(node: Node?, parent: Node, other: Node)
      requires RemoveInv(node, parent) && IsBlack(node) && parent in Nodes && other in Nodes
      requires parent.right == node && parent.left == other && other.color.Black?
      requires other.left in Nodes && other.left.color.Red?
      modifies this`mRoot, Nodes`left, Nodes`right, Nodes`parent, Nodes`lo, Nodes`hi, Nodes`bh
      modifies {parent, other, other.left}`color
      ensures Shape() && Balanced(null, null) && Coloured(null, null)
    {
      hide Bal, RedOk, Balanced, Coloured, NodeOk, Shape;
      Surroundings(parent);
      Surroundings(other);
      ghost var m, w := other.right, other.left;
      other.color := parent.color;
      parent.color := Black;
      other.left.color := Black;
      w.bh := w.bh + 1;
      SameLinksSameShape();
      RotateRight(parent);
      RemoveCase4Keeps(node, parent, other, m, w);
    }

    lemma OtherChildren(other: Node)
      requires Shape() && other in Nodes
      ensures other.left != null ==> other.left in Nodes
      ensures other.right != null ==> other.right in Nodes
    {
      assert NodeOk(other);
    }

    twostate lemma BlackNodeKeeps(new node: Node)
      requires node in old(Nodes) && old(RemoveInv(node, node.parent)) && SameLinks() && SamePaint({node})
      requires node.color.Black? && old(node.color.Red? || node == mRoot)
      requires node.bh == old(node.bh) + (if old(node.color.Red?) then 1 else 0)
      ensures Shape() && Balanced(null, null) && Coloured(null, null)
    {
      SameLinksSameShape();
      assert old(NodeOk(node) && Bal(node, node.parent, node));
      forall n | n in Nodes ensures Bal(n, null, null) && RedOk(n, null, null) {
        assert old(NodeOk(n) && Bal(n, node.parent, node) && RedOk(n, node, node));
      }
    }

    method BlackenNode(node: Node)
      requires RemoveInv(node, node.parent) && (node.color.Red? || node == mRoot)
      modifies {node}`color, {node}`bh
      ensures Shape() && Balanced(null, null) && Coloured(null, null)
    {
      node.bh := node.bh + (if node.color.Red? then 1 else 0);
      node.color := Black;
      BlackNodeKeeps(node);
    }

    lemma EmptyTree()
      requires Shape() && mRoot == null
      ensures Nodes == {}
    {
      assert forall n :: n in Nodes ==> NodeOk(n);
    }

    lemma NothingMissing()
      requires Shape() && Balanced(null, null) && Coloured(null, null)
      ensures RemoveInv(mRoot, null)
    {
      if mRoot == null {
        EmptyTree();
      }
      forall n | n in Nodes && mRoot != null ensures Bal(n, null, mRoot) && RedOk(n, mRoot, mRoot) {
        assert Bal(n, null, null) && RedOk(n, null, null);
      }
    }

    // algorithm/rbtree.h:613-629
    method RemoveEndLeft(node: Node?, parent: Node, sibling: Node) returns (ghost rotations: nat)
      requires RemoveInv(node, parent) && IsBlack(node) && parent in Nodes && sibling in Nodes
      requires parent.left == node && parent.right == sibling && sibling.color.Black?
      requires !(IsBlack(sibling.left) && IsBlack(sibling.right))
      requires sibling.left != null ==> sibling.left in Nodes
      requires sibling.right != null ==> sibling.right in Nodes
      modifies this`mRoot, Nodes`left, Nodes`right, Nodes`parent, Nodes`color, Nodes`lo, Nodes`hi, Nodes`bh
      ensures RemoveInv(mRoot, null) && rotations <= 2
    {
      hide Balanced, Coloured, Bal, RedOk, Shape;
      rotations := 0;
      var other := sibling;
      if other.right == null || other.right.color == Black {
        RemoveCase3Left(node, parent, other);
        rotations := rotations + 1;
        other := parent.right;
      }
      RemoveCase4Left(node, parent, other);
      rotations := rotations + 1;
      NothingMissing();
    }

    // algorithm/rbtree.h:651-667
    method RemoveEndRight(node: Node?, parent: Node, sibling: Node) returns (ghost rotations: nat)
      requires RemoveInv(node, parent) && IsBlack(node) && parent in Nodes && sibling in Nodes
      requires parent.right == node && parent.left == sibling && sibling.color.Black?
      requires !(IsBlack(sibling.left) && IsBlack(sibling.right))
      requires sibling.left != null ==> sibling.left in Nodes
      requires sibling.right != null ==> sibling.right in Nodes
      modifies this`mRoot, Nodes`left, Nodes`right, Nodes`parent, Nodes`color, Nodes`lo, Nodes`hi, Nodes`bh
      ensures RemoveInv(mRoot, null) && rotations <= 2
    {
      hide Balanced, Coloured, Bal, RedOk, Shape;
      rotations := 0;
      var other := sibling;
      if other.left == null || other.left.color == Black {
        RemoveCase3Right(node, parent, other);
        rotations := rotations + 1;
        other := parent.left;
      }
      RemoveCase4Right(node, parent, other);
      rotations := rotations + 1;
      NothingMissing();
    }

    static ghost function BhOf(n: Node?): int
      reads n
    {
      if n == null then 0 else n.bh
    }

    lemma HoleBound(k: nat, node: Node?, parent: Node?)
      requires RemoveInv(node, parent) && k <= BhOf(node)
      ensures Pow2(k + 1) <= 2 * (|Order| + 1)
    {
      if node != null {
        assert NodeOk(node);
        assert parent != null ==> NodeOk(parent);
        ClimbBound(k, node, parent, node);
      }
    }

    // algorithm/rbtree.h:587.  Whatever the size of the tree, the repair takes
    // at most three rotations, in at most log2(n + 1) + 1 iterations.
    method RemoveFixUp(hole: Node?, holder: Node?) returns (ghost rotations: nat, ghost iterations: nat)
      requires RemoveInv(hole, holder)
      modifies this`mRoot, Nodes`left, Nodes`right, Nodes`parent, Nodes`color, Nodes`lo, Nodes`hi, Nodes`bh
      ensures Shape() && Balanced(null, null) && Coloured(null, null)
      ensures rotations <= 3 && Pow2(iterations) <= 2 * (|Order| + 1)
    {
      assert hole != null ==> Bal(hole, holder, hole);
      hide Shape, Balanced, Coloured, Bal, RedOk, Pow2;
      var node, parent := hole, holder;
      rotations, iterations := 0, 0;
      Pow2Zero();
      while (node == null || node.color == Black) && node != mRoot
        invariant RemoveInv(node, parent)
        invariant rotations <= 1
        invariant rotations > 0 ==> node != null && node.color.Red?
        invariant rotations == 0 ==> iterations <= BhOf(node) + if IsBlack(node) then 0 else 1
        invariant Pow2(iterations) <= 2 * (|Order| + 1)
        decreases if rotations == 0 then 1 else 0, |Order| - (if node == null then 0 else node.hi - node.lo)
      {
        HoleBound(iterations, node, parent);
        iterations := iterations + 1;
        SiblingExists(node, parent);
        if parent.left == node {
          var other := parent.right;
          if other.color == Red {
            RemoveCase1Left(node, parent, other);
            rotations := rotations + 1;
            other := parent.right;
          }
          OtherChildren(other);
          if (other.left == null || other.left.color == Black) && (other.right == null || other.right.color == Black) {
            RemoveCase2(node, parent, other);
            node := parent;
            parent := node.parent;
          } else {
            ghost var last := RemoveEndLeft(node, parent, other);
            rotations := rotations + last;
            node := mRoot;
            break;
          }
        } else {
          var other := parent.left;
          if other.color == Red {
            RemoveCase1Right(node, parent, other);
            rotations := rotations + 1;
            other := parent.left;
          }
          OtherChildren(other);
          if (other.left == null || other.left.color == Black) && (other.right == null || other.right.color == Black) {
            RemoveCase2(node, parent, other);
            node := parent;
            parent := node.parent;
          } else {
            ghost var last := RemoveEndRight(node, parent, other);
            rotations := rotations + last;
            node := mRoot;
            break;
          }
        }
      }
      if node != null {
        BlackenNode(node);
      } else {
        EmptyTree();
      }
    }

    static function Down(v: int, k: int): int { if v > k then v - 1 else v }

    // Takes node out of the in-order sequence.  Interval bounds above b move
    // down.
    ghost method CloseGap(node: Node, b: int)
      requires node in Nodes && 0 <= node.pos < |Order|
      modifies this`Nodes, this`Order, (Nodes - {node})`lo, (Nodes - {node})`pos, (Nodes - {node})`hi
      ensures Nodes == old(Nodes) - {node} && Order == old(Order)[..node.pos] + old(Order)[node.pos + 1..]
      ensures forall n :: n in Nodes ==>
        n.pos == Down(old(n.pos), node.pos) && n.lo == Down(old(n.lo), b) && n.hi == Down(old(n.hi), b)
    {
      Nodes := Nodes - {node};
      forall n | n in Nodes { n.pos := Down(n.pos, node.pos); }
      forall n | n in Nodes { n.lo := Down(n.lo, b); }
      forall n | n in Nodes { n.hi := Down(n.hi, b); }
      Order := Order[..node.pos] + Order[node.pos + 1..];
    }

    // b stands where a stood below p.
    twostate predicate TakesPlace(new p: Node?, new a: Node, new b: Node?)
      reads this, p
    {
      && mRoot == (if p == null then b else old(mRoot))
      && (p != null ==>
        && old(allocated(p))
        && (if old(p.left) == a then p.left == b && p.right == old(p.right) else p.left == old(p.left) && p.right == b))
    }

    // node, which had at most one child, has been taken out.
    twostate predicate SplicedOut(new node: Node, new child: Node?, new parent: Node?)
      reads this, Nodes
    {
      && node in old(Nodes) && Nodes == old(Nodes) - {node} && old(node.parent) == parent
      && (child != null ==> child in Nodes && child.parent == parent)
      && (parent != null ==> parent in Nodes)
      && old(Children(node, child, null))
      && TakesPlace(parent, node, child)
      && 0 <= old(node.pos) < |old(Order)| && Order == old(Order)[..old(node.pos)] + old(Order)[old(node.pos) + 1..]
      && (forall n :: n in Nodes ==>
        && (n != child ==> n.parent == old(n.parent))
        && (n != parent ==> n.left == old(n.left) && n.right == old(n.right))
        && n.pos == Down(old(n.pos), old(node.pos))
        && n.lo == Down(old(n.lo), old(node.pos)) && n.hi == Down(old(n.hi), old(node.pos))
        && n.color == old(n.color) && n.bh == old(n.bh))
    }

    twostate lemma SplicedOutNode(new node: Node, new child: Node?, new parent: Node?, new n: Node)
      requires SplicedOut(node, child, parent) && n in Nodes
      requires old(NodeOk(node) && NodeOk(n)) && (parent != null ==> old(NodeOk(parent)))
      ensures NodeOk(n)
    {
      if n == child {
      } else if n == parent {
      }
    }

    twostate lemma SplicedOutPaint(new node: Node, new child: Node?, new parent: Node?, new n: Node)
      requires old(Shape() && Balanced(null, null) && Coloured(null, null))
      requires SplicedOut(node, child, parent) && n in Nodes
      ensures old(node.color.Black?) ==> Bal(n, parent, child) && RedOk(n, child, child)
      ensures old(node.color.Red?) ==> Bal(n, null, null) && RedOk(n, null, null)
    {
      assert old(NodeOk(node) && NodeOk(n));
      assert old(Bal(node, null, null) && RedOk(node, null, null));
      assert old(Bal(n, null, null) && RedOk(n, null, null));
      assert parent != null ==> old(Bal(parent, null, null));
      assert child != null ==> old(Bal(child, null, null) && RedOk(child, null, null));
    }

    // The in-order sequence after a removal at index k, for either kind.
    twostate predicate OrderWithout(new k: int)
      reads this, Nodes
    {
      && 0 <= k < |old(Order)| && Order == old(Order)[..k] + old(Order)[k + 1..]
      && Nodes == old(Nodes) - {old(Order)[k]}
      && forall n :: n in Nodes ==> n.pos == Down(old(n.pos), k)
    }

    twostate lemma OrderWithoutIndex(new k: int, new i: int)
      requires old(Shape()) && OrderWithout(k) && 0 <= i < |Order|
      ensures Order[i] in Nodes && Order[i].pos == i
    {
      var j := if i < k then i else i + 1;
      assert Order[i] == old(Order)[j];
      assert old(Order[j].pos == j && Order[k].pos == k);
    }

    twostate lemma OrderWithoutKeeps(new k: int)
      requires old(Shape()) && OrderWithout(k)
      ensures forall i :: 0 <= i < |Order| ==> Order[i] in Nodes && Order[i].pos == i
    {
      forall i | 0 <= i < |Order| ensures Order[i] in Nodes && Order[i].pos == i {
        OrderWithoutIndex(k, i);
      }
    }

    twostate lemma SplicedOutRoot(new node: Node, new child: Node?, new parent: Node?)
      requires old(Shape()) && SplicedOut(node, child, parent)
      ensures OrderWithout(old(node.pos))
      ensures mRoot == null ==> Order == []
      ensures mRoot != null ==> mRoot in Nodes && mRoot.parent == null && mRoot.lo == 0 && mRoot.hi == |Order|
    {
      assert old(NodeOk(node) && NodeOk(mRoot));
    }

    twostate lemma SplicedOutKeeps(new node: Node, new child: Node?, new parent: Node?)
      requires old(Shape() && Balanced(null, null) && Coloured(null, null)) && SplicedOut(node, child, parent)
      ensures Shape()
      ensures old(node.color.Red?) ==> Balanced(null, null) && Coloured(null, null)
      ensures old(node.color.Black?) ==> Balanced(parent, child) && Coloured(child, child)
    {
      SplicedOutRoot(node, child, parent);
      OrderWithoutKeeps(old(node.pos));
      forall n | n in Nodes ensures NodeOk(n) {
        assert old(NodeOk(n));
        SplicedOutNode(node, child, parent, n);
      }
      forall n | n in Nodes
        ensures old(node.color.Red?) ==> Bal(n, null, null) && RedOk(n, null, null)
        ensures old(node.color.Black?) ==> Bal(n, parent, child) && RedOk(n, child, child)
      {
        SplicedOutPaint(node, child, parent, n);
      }
    }

    // A black node that is removed without leaving a child had a sibling.
    twostate lemma SplicedOutHole(new node: Node, new child: Node?, new parent: Node?)
      requires old(Shape() && Balanced(null, null) && Coloured(null, null)) && SplicedOut(node, child, parent)
      requires old(node.color.Black?)
      ensures RemoveInv(child, parent)
    {
      SplicedOutKeeps(node, child, parent);
      assert old(NodeOk(node) && Bal(node, null, null));
      assert parent != null ==> old(NodeOk(parent) && Bal(parent, null, null));
    }

    // algorithm/rbtree.h:746-767
    method SpliceOut(node: Node) returns (child: Node?, parent: Node?)
      requires node in Nodes && Leafy(node) && LocallyTree(node) && 0 <= node.pos < |Order|
      modifies this, Only(node.left)`parent, Only(node.right)`parent, Only(node.parent)`left, Only(node.parent)`right
      modifies Nodes`lo, Nodes`pos, Nodes`hi
      ensures SplicedOut(node, child, parent)
    {
      if node.left != null {
        child := node.left;
      } else {
        child := node.right;
      }
      parent := node.parent;
      if child != null {
        child.parent := parent;
      }
      if parent != null {
        if parent.left == node {
          parent.left := child;
        } else {
          parent.right := child;
        }
      } else {
        mRoot := child;
      }
      CloseGap(node, node.pos);
    }

    // Instead of node, which had two children, its in-order successor r is now
    // linked to the neighbours of node, and the former right child of r hangs
    // under parent.
    twostate predicate RelinkedTo(new node: Node, new r: Node, new child: Node?, new parent: Node)
      reads this, Nodes
    {
      && old(Nodes) - {node} <= Nodes <= old(Nodes)
      && node in old(Nodes) && r in Nodes && r != node && parent in Nodes && parent != node
      && old(node.left) in Nodes && old(node.right) in Nodes && old(node.left) !in {node, r} && old(node.right) != node
      && old(r.left) == null && old(r.right) == child && old(r.pos) == old(node.pos) + 1
      && old(r.parent) == (if parent == r then node else parent)
      && (old(node.parent) != null ==> old(node.parent) in Nodes && old(node.parent) != node)
      && TakesPlace(old(node.parent), node, r)
      && r.parent == old(node.parent) && r.left == old(node.left) && r.color == old(node.color)
      && (if parent == r then r.right == child
          else r.right == old(node.right) && parent.left == child && parent.right == old(parent.right))
      && (forall n :: n in Nodes && n != r && n != node ==>
        && n.parent == (if n == old(node.left) || n == old(node.right) then r
                        else if n == child then parent else old(n.parent))
        && (n != parent && n != old(node.parent) ==> n.left == old(n.left) && n.right == old(n.right))
        && n.color == old(n.color))
    }

    // The whole effect: node is gone and r stands in its place.
    twostate predicate ReplacedBy(new node: Node, new r: Node, new child: Node?, new parent: Node)
      reads this, Nodes
    {
      && RelinkedTo(node, r, child, parent)
      && OrderWithout(old(node.pos)) && Nodes == old(Nodes) - {node}
      && r.lo == old(node.lo) && r.hi == old(node.hi) - 1 && r.bh == old(node.bh)
      && (forall n :: n in Nodes && n != r ==>
        n.lo == Down(old(n.lo), old(node.pos) + 1) && n.hi == Down(old(n.hi), old(node.pos) + 1) && n.bh == old(n.bh))
    }

    // Where the successor was: at the bottom of the left spine of node.right.
    twostate lemma ReplacedByPlaces(new node: Node, new r: Node, new child: Node?, new parent: Node)
      requires old(Shape()) && ReplacedBy(node, r, child, parent)
      ensures old(node.hi > node.pos + 1 && node.left.hi == node.pos)
      ensures old(node.right.lo == node.pos + 1 && node.right.hi == node.hi)
      ensures old(r.lo == node.pos + 1 && NodeOk(r) && NodeOk(node))
      ensures if parent == r then old(node.right) == r
              else old(parent.left == r && NodeOk(parent) && r.hi == parent.pos && node.right != r && parent.lo == r.lo)
    {
      assert old(NodeOk(node) && NodeOk(r));
      assert old(NodeOk(node.right));
      assert parent != r ==> old(NodeOk(parent));
    }

    twostate lemma ReplacedByPlaced(new node: Node, new r: Node, new child: Node?, new parent: Node)
      requires old(Shape()) && ReplacedBy(node, r, child, parent)
      ensures NodeOk(r)
    {
      ReplacedByPlaces(node, r, child, parent);
    }

    twostate lemma ReplacedByBelow(new node: Node, new r: Node, new child: Node?, new parent: Node, new n: Node)
      requires old(Shape()) && ReplacedBy(node, r, child, parent) && n in Nodes && n != r
      requires n == parent || n == child
      ensures NodeOk(n)
    {
      ReplacedByPlaces(node, r, child, parent);
      assert old(NodeOk(n));
    }

    twostate lemma ReplacedByAbove(new node: Node, new r: Node, new child: Node?, new parent: Node, new n: Node)
      requires old(Shape()) && ReplacedBy(node, r, child, parent) && n in Nodes && n != r
      requires n == old(node.parent)
      ensures NodeOk(n)
    {
      ReplacedByPlaces(node, r, child, parent);
      assert old(NodeOk(n));
    }

    twostate lemma ReplacedByFar(new node: Node, new r: Node, new child: Node?, new parent: Node, new n: Node)
      requires old(Shape()) && ReplacedBy(node, r, child, parent) && n in Nodes && n != r
      requires n != parent && n != child && n != old(node.parent)
      ensures NodeOk(n)
    {
      ReplacedByPlaces(node, r, child, parent);
      assert old(NodeOk(n));
    }

    twostate lemma ReplacedByPaint(new node: Node, new r: Node, new child: Node?, new parent: Node, new n: Node)
      requires old(Shape() && Balanced(null, null) && Coloured(null, null))
      requires ReplacedBy(node, r, child, parent) && n in Nodes
      ensures old(r.color.Black?) ==> Bal(n, parent, child) && RedOk(n, child, child)
      ensures old(r.color.Red?) ==> Bal(n, null, null) && RedOk(n, null, null)
    {
      assert old(NodeOk(node) && NodeOk(r) && NodeOk(n));
      assert old(Bal(node, null, null) && RedOk(node, null, null));
      assert old(Bal(r, null, null) && RedOk(r, null, null));
      assert old(Bal(n, null, null) && RedOk(n, null, null));
      assert parent != r ==> old(NodeOk(parent) && Bal(parent, null, null));
      assert child != null ==> old(Bal(child, null, null) && RedOk(child, null, null));
    }

    twostate lemma ReplacedByRoot(new node: Node, new r: Node, new child: Node?, new parent: Node)
      requires old(Shape()) && ReplacedBy(node, r, child, parent)
      ensures mRoot in Nodes && mRoot.parent == null && mRoot.lo == 0 && mRoot.hi == |Order|
    {
      ReplacedByPlaces(node, r, child, parent);
      assert old(NodeOk(mRoot));
    }

    twostate lemma ReplacedByKeeps(new node: Node, new r: Node, new child: Node?, new parent: Node)
      requires old(Shape() && Balanced(null, null) && Coloured(null, null)) && ReplacedBy(node, r, child, parent)
      ensures Shape()
      ensures old(r.color.Red?) ==> Balanced(null, null) && Coloured(null, null)
      ensures old(r.color.Black?) ==> Balanced(parent, child) && Coloured(child, child)
    {
      ReplacedByRoot(node, r, child, parent);
      OrderWithoutKeeps(old(node.pos));
      forall n | n in Nodes ensures NodeOk(n) {
        if n == r {
          ReplacedByPlaced(node, r, child, parent);
        } else if n == parent || n == child {
          ReplacedByBelow(node, r, child, parent, n);
        } else if n == old(node.parent) {
          ReplacedByAbove(node, r, child, parent, n);
        } else {
          ReplacedByFar(node, r, child, parent, n);
        }
      }
      forall n | n in Nodes
        ensures old(r.color.Red?) ==> Bal(n, null, null) && RedOk(n, null, null)
        ensures old(r.color.Black?) ==> Bal(n, parent, child) && RedOk(n, child, child)
      {
        ReplacedByPaint(node, r, child, parent, n);
      }
    }

    twostate lemma ReplacedByHole(new node: Node, new r: Node, new child: Node?, new parent: Node)
      requires old(Shape() && Balanced(null, null) && Coloured(null, null)) && ReplacedBy(node, r, child, parent)
      requires old(r.color.Black?)
      ensures RemoveInv(child, parent)
    {
      ReplacedByKeeps(node, r, child, parent);
      ReplacedByPlaces(node, r, child, parent);
      assert old(Bal(r, null, null));
      assert parent != r ==> old(Bal(parent, null, null));
      assert child != null ==> old(NodeOk(child));
    }

    // The links around node and its successor r, as the relinking needs them.
    ghost predicate Replaceable(node: Node, r: Node)
      reads this, node, r, r.parent, r.right
    {
      && LocallyTree(node) && LocallyTree(r)
      && r != node && r.left == null && r.parent != null
      && node.left != null && node.right != null && r !in {node.left, node.parent}
      && (r.right != null ==> r.right.parent == r && r.right !in {node, node.left, node.right, node.parent})
      && (if r.parent == node then node.right == r
          else r.parent.left == r && node.right != r && r.parent !in {node.left, node.parent, r.right})
    }

    lemma SuccessorIsReplaceable(node: Node, r: Node)
      requires Shape() && node in Nodes && r in Nodes && node.left != null && node.right != null
      requires r.left == null && r.lo == node.pos + 1 && r.hi <= node.hi
      ensures Replaceable(node, r)
    {
      Surroundings(node);
      Surroundings(r);
      assert NodeOk(node) && NodeOk(node.left) && NodeOk(node.right) && NodeOk(r);
      assert r.right != null ==> NodeOk(r.right);
      assert node.parent != null ==> NodeOk(node.parent);
      assert r.parent != null ==> NodeOk(r.parent);
    }

    // algorithm/rbtree.h:699-709
    method HangInstead(node: Node, replace: Node)
      requires node.parent != null ==> node.parent !in {node, replace}
      modifies this`mRoot, Only(node.parent)`left, Only(node.parent)`right
      ensures TakesPlace(node.parent, node, replace)
    {
      if node.parent != null {
        if node.parent.left == node {
          node.parent.left := replace;
        } else {
          node.parent.right := replace;
        }
      } else {
        mRoot := replace;
      }
    }

    // algorithm/rbtree.h:711-737
    method TakeOver(node: Node, replace: Node) returns (child: Node?, parent: Node, color: Color)
      requires Replaceable(node, replace)
      modifies replace`left, replace`right, replace`parent, replace`color, Only(replace.right)`parent
      modifies Only(if replace.parent == node then null else replace.parent)`left
      modifies Only(node.left)`parent, Only(node.right)`parent
      ensures color == old(replace.color) && replace.color == node.color && child == old(replace.right)
      ensures replace.parent == node.parent && replace.left == node.left && node.left.parent == replace
      ensures if old(replace.parent) == node
              then parent == replace && replace.right == child && unchanged(Only(child)`parent)
              else parent == old(replace.parent) && replace.right == node.right && node.right.parent == replace
                   && parent.left == child && (child != null ==> child.parent == parent)
    {
      child := replace.right;
      parent := replace.parent;
      color := replace.color;
      if parent == node {
        parent := replace;
      } else {
        if child != null {
          child.parent := parent;
        }
        parent.left := child;
        replace.right := node.right;
        node.right.parent := replace;
      }
      replace.parent := node.parent;
      replace.color := node.color;
      replace.left := node.left;
      node.left.parent := replace;
    }

    method Relink(node: Node, replace: Node) returns (child: Node?, parent: Node, color: Color)
      requires node in Nodes && replace in Nodes && Replaceable(node, replace) && replace.pos == node.pos + 1
      modifies this`mRoot, replace`left, replace`right, replace`parent, replace`color
      modifies Only(replace.right)`parent, Only(replace.parent)`left
      modifies Only(node.left)`parent, Only(node.right)`parent, Only(node.parent)`left, Only(node.parent)`right
      ensures RelinkedTo(node, replace, child, parent) && color == old(replace.color)
    {
      HangInstead(node, replace);
      child, parent, color := TakeOver(node, replace);
    }

    method Replace(node: Node, replace: Node) returns (child: Node?, parent: Node, color: Color)
      requires node in Nodes && replace in Nodes && Replaceable(node, replace) && replace.pos == node.pos + 1
      requires 0 <= node.pos < |Order| && Order[node.pos] == node
      modifies this, replace, Only(replace.right)`parent, Only(replace.parent)`left
      modifies Only(node.left)`parent, Only(node.right)`parent, Only(node.parent)`left, Only(node.parent)`right
      modifies Nodes`lo, Nodes`pos, Nodes`hi
      ensures ReplacedBy(node, replace, child, parent) && color == old(replace.color)
    {
      child, parent, color := Relink(node, replace);
      CloseGap(node, node.pos + 1);
      replace.lo, replace.hi, replace.bh := node.lo, node.hi - 1, node.bh;
    }

    static lemma RemoveKeepsSorted(order: seq<Node>, k: int)
      requires 0 <= k < |order| && Sorted(KeysOf(order))
      ensures Sorted(KeysOf(order[..k] + order[k + 1..]))
    {
      var keys := KeysOf(order);
      assert KeysOf(order[..k] + order[k + 1..]) == keys[..k] + keys[k + 1..];
    }

    // algorithm/rbtree.h:692-697
    method FirstToTheRight(node: Node) returns (replace: Node)
      requires Shape() && node in Nodes && node.left != null && node.right != null
      ensures replace in Nodes && replace.left == null
      ensures replace.lo == node.pos + 1 == replace.pos && replace.hi <= node.hi
    {
      assert NodeOk(node);
      replace := node.right;
      assert NodeOk(replace);
      while replace.left != null
        invariant replace in Nodes && NodeOk(replace) && replace.lo == node.pos + 1 && replace.hi <= node.hi
        decreases replace.hi - replace.lo
      {
        replace := replace.left;
        assert NodeOk(replace);
      }
    }

    method PutInPlace(node: Node, replace: Node) returns (child: Node?, parent: Node, color: Color)
      requires Shape() && Balanced(null, null) && Coloured(null, null)
      requires node in Nodes && replace in Nodes && Replaceable(node, replace) && replace.pos == node.pos + 1
      requires 0 <= node.pos < |Order| && Order[node.pos] == node
      modifies this, Nodes
      ensures Nodes == old(Nodes) - {node} && Order == old(Order)[..old(node.pos)] + old(Order)[old(node.pos) + 1..]
      ensures if color == Red then Shape() && Balanced(null, null) && Coloured(null, null) else RemoveInv(child, parent)
    {
      child, parent, color := Replace(node, replace);
      ReplacedByKeeps(node, replace, child, parent);
      if color == Black {
        ReplacedByHole(node, replace, child, parent);
      }
    }

    // algorithm/rbtree.h:688-744
    method RemoveWithTwoChildren(node: Node) returns (ghost rotations: nat)
      requires Valid() && node in Nodes && node.left != null && node.right != null
      modifies this, Nodes
      ensures Valid() && Nodes == old(Nodes) - {node}
      ensures 0 <= old(node.pos) < |old(Order)| && old(Order[node.pos]) == node
      ensures Order == old(Order)[..old(node.pos)] + old(Order)[old(node.pos) + 1..]
      ensures rotations <= 3
    {
      rotations := 0;
      assert NodeOk(node);
      RemoveKeepsSorted(Order, node.pos);
      var replace := FirstToTheRight(node);
      SuccessorIsReplaceable(node, replace);
      var child, parent, color := PutInPlace(node, replace);
      if color == Black {
        ghost var iterations;
        rotations, iterations := RemoveFixUp(child, parent);
      }
    }

    // algorithm/rbtree.h:746-771
    method RemoveWithOneChild(node: Node) returns (ghost rotations: nat)
      requires Valid() && node in Nodes && Leafy(node)
      modifies this, Nodes
      ensures Valid() && Nodes == old(Nodes) - {node}
      ensures 0 <= old(node.pos) < |old(Order)| && old(Order[node.pos]) == node
      ensures Order == old(Order)[..old(node.pos)] + old(Order)[old(node.pos) + 1..]
      ensures rotations <= 3
    {
      rotations := 0;
      assert NodeOk(node);
      RemoveKeepsSorted(Order, node.pos);
      Surroundings(node);
      var child, parent := SpliceOut(node);
      SplicedOutKeeps(node, child, parent);
      if node.color == Black {
        SplicedOutHole(node, child, parent);
        ghost var iterations;
        rotations, iterations := RemoveFixUp(child, parent);
      }
    }

    // algorithm/rbtree.h:682
    method RemoveNode(node: Node) returns (ghost rotations: nat)
      requires Valid() && node in Nodes
      modifies this, Nodes
      ensures Valid() && Nodes == old(Nodes) - {node}
      ensures 0 <= old(node.pos) < |old(Order)| && old(Order[node.pos]) == node
      ensures Order == old(Order)[..old(node.pos)] + old(Order)[old(node.pos) + 1..]
      ensures rotations <= 3
    {
      if node.left != null && node.right != null {
        rotations := RemoveWithTwoChildren(node);
      } else {
        rotations := RemoveWithOneChild(node);
      }
    }

    // algorithm/rbtree.h:201.  Every key equal to the one sought lies in the
    // stretch of the subtree that the search still looks at.
    function Search(x: Node?, key: int): (r: Node?)
      requires Valid() && (x != null ==> x in Nodes)
      reads this, Nodes
      ensures r != null ==> r in Nodes && r.key == key && x != null && x.lo <= r.pos < x.hi
      ensures r == null && x != null ==> forall i :: 0 <= i < |Order| && x.lo <= i < x.hi ==> Order[i].key != key
      decreases if x == null then 0 else x.hi - x.lo
    {
      if x == null || x.key == key then
        assert x != null ==> NodeOk(x);
        x
      else
        assert NodeOk(x);
        assert x.left != null ==> NodeOk(x.left);
        assert x.right != null ==> NodeOk(x.right);
        assert forall i :: 0 <= i < |Order| ==> Keys()[i] == Order[i].key;
        if key < x.key then Search(x.left, key) else Search(x.right, key)
    }

    // algorithm/rbtree.h:222.  The loop finds the node that the recursion
    // finds, within the length of a longest path.
    method IterativeSearch(start: Node?, key: int) returns (x: Node?, ghost steps: nat)
      requires Valid() && (start != null ==> start in Nodes)
      ensures x == Search(start, key)
      ensures start == mRoot ==> Pow2(steps) <= (|Order| + 1) * (|Order| + 1)
    {
      x := start;
      steps := 0;
      while x != null && x.key != key
        invariant x != null ==> x in Nodes
        invariant Search(x, key) == Search(start, key)
        invariant steps + Depth(x) <= Depth(start)
        decreases if x == null then 0 else x.hi - x.lo
      {
        assert NodeOk(x);
        DepthDrops(x);
        assert x.left != null ==> NodeOk(x.left);
        assert x.right != null ==> NodeOk(x.right);
        if key < x.key {
          x := x.left;
        } else {
          x := x.right;
        }
        steps := steps + 1;
      }
      if start == mRoot {
        assert x != null ==> Bal(x, null, null);
        DepthBound(steps);
      }
    }

    lemma SearchIsComplete(key: int)
      requires Valid()
      ensures Search(mRoot, key) == null <==> key !in Keys()
    {
      var r := Search(mRoot, key);
      if r != null {
        assert NodeOk(r);
        assert Keys()[r.pos] == key;
      }
      forall i | 0 <= i < |Keys()| ensures r == null ==> Keys()[i] != key {
        assert Keys()[i] == Order[i].key;
      }
    }

    // ---------- the public operations ----------

    constructor ()
      ensures Valid() && Keys() == [] && Nodes == {} && mRoot == null
    {
      mRoot := null;
      Nodes := {};
      Order := [];
    }

    // algorithm/rbtree.h:565.  steps counts the iterations of the descent.
    method Insert(key: int) returns (ghost rotations: nat, ghost steps: nat)
      requires Valid()
      modifies this, Nodes
      ensures Valid() && fresh(Nodes - old(Nodes)) && old(Nodes) <= Nodes
      ensures multiset(Keys()) == multiset(old(Keys())) + multiset{key}
      ensures rotations <= 2 && Pow2(steps) <= (|old(Keys())| + 1) * (|old(Keys())| + 1)
    {
      hide Shape, Balanced, Coloured, Sorted, Pow2;
      var z := new Node(key, Black);
      ghost var k;
      ghost var keys := Keys();
      k, rotations, steps := InsertNode(z);
      assert Keys() == keys[..k] + [key] + keys[k..];
      assert keys == keys[..k] + keys[k..];
    }

    // algorithm/rbtree.h:781
    method Remove(key: int) returns (ghost rotations: nat)
      requires Valid()
      modifies this, Nodes
      ensures Valid() && Nodes <= old(Nodes)
      ensures key !in old(Keys()) ==> unchanged(this) && forall n :: n in old(Nodes) ==> unchanged(n)
      ensures multiset(Keys()) == multiset(old(Keys())) - multiset{key}
      ensures rotations <= 3
    {
      SearchIsComplete(key);
      hide Shape, Balanced, Coloured, Sorted, NodeOk;
      var node := Search(mRoot, key);
      rotations := 0;
      ghost var keys := Keys();
      if node != null {
        ghost var k := node.pos;
        rotations := RemoveNode(node);
        assert Keys() == keys[..k] + keys[k + 1..];
        assert keys == keys[..k] + [keys[k]] + keys[k + 1..];
      }
    }

    // ---------- walking the tree ----------

    ghost function Next(x: Node): Node?
      requires Shape() && x in Nodes
      reads this, Nodes
    {
      assert NodeOk(x);
      if x.pos + 1 < |Order| then Order[x.pos + 1] else null
    }

    ghost function Previous(x: Node): Node?
      requires Shape() && x in Nodes
      reads this, Nodes
    {
      assert NodeOk(x);
      if x.pos > 0 then Order[x.pos - 1] else null
    }

    // algorithm/rbtree.h:245
    method Minimum(start: Node?) returns (tree: Node?)
      requires Shape() && (start != null ==> start in Nodes)
      ensures if start == null then tree == null else 0 <= start.lo < |Order| && tree == Order[start.lo]
    {
      tree := start;
      if tree == null {
        return;
      }
      assert NodeOk(tree);
      while tree.left != null
        invariant tree in Nodes && NodeOk(tree) && tree.lo == start.lo
        decreases tree.hi - tree.lo
      {
        tree := tree.left;
        assert NodeOk(tree);
      }
    }

    // algorithm/rbtree.h:269
    method Maximum(start: Node?) returns (tree: Node?)
      requires Shape() && (start != null ==> start in Nodes)
      ensures if start == null then tree == null else 0 <= start.hi - 1 < |Order| && tree == Order[start.hi - 1]
    {
      tree := start;
      if tree == null {
        return;
      }
      assert NodeOk(tree);
      while tree.right != null
        invariant tree in Nodes && NodeOk(tree) && tree.hi == start.hi
        decreases tree.hi - tree.lo
      {
        tree := tree.right;
        assert NodeOk(tree);
      }
    }

    // algorithm/rbtree.h:293
    method Successor(start: Node) returns (y: Node?)
      requires Shape() && start in Nodes
      ensures y == Next(start)
    {
      var x := start;
      assert NodeOk(x);
      if x.right != null {
        y := Minimum(x.right);
        return;
      }
      y := x.parent;
      while y != null && x == y.right
        invariant x in Nodes && NodeOk(x) && y == x.parent && x.hi == start.pos + 1
        decreases |Order| - (x.hi - x.lo)
      {
        x := y;
        assert NodeOk(x);
        y := y.parent;
      }
      assert y != null ==> NodeOk(y);
    }

    // algorithm/rbtree.h:315
    method Predecessor(start: Node) returns (y: Node?)
      requires Shape() && start in Nodes
      ensures y == Previous(start)
    {
      var x := start;
      assert NodeOk(x);
      if x.left != null {
        y := Maximum(x.left);
        return;
      }
      y := x.parent;
      while y != null && x == y.left
        invariant x in Nodes && NodeOk(x) && y == x.parent && x.lo == start.pos
        decreases |Order| - (x.hi - x.lo)
      {
        x := y;
        assert NodeOk(x);
        y := y.parent;
      }
      assert y != null ==> NodeOk(y);
    }

    lemma NextAndPreviousUndoEachOther(x: Node)
      requires Shape() && x in Nodes
      ensures Next(x) != null ==> Next(x) in Nodes && Previous(Next(x)) == x
      ensures Previous(x) != null ==> Previous(x) in Nodes && Next(Previous(x)) == x
    {
      assert NodeOk(x);
    }

    // Calling successor from any node on visits everything behind it, in order.
    method WalkUp(start: Node) returns (visited: seq<Node>)
      requires Shape() && start in Nodes
      ensures 0 <= start.pos < |Order| && visited == Order[start.pos..]
    {
      assert NodeOk(start);
      visited := [];
      var x: Node? := start;
      ghost var i := start.pos;
      while x != null
        invariant start.pos <= i <= |Order| && visited == Order[start.pos..i]
        invariant if x == null then i == |Order| else i < |Order| && x == Order[i]
        decreases |Order| - i
      {
        assert Order[i] in Nodes && NodeOk(Order[i]);
        visited := visited + [x];
        x := Successor(x);
        i := i + 1;
      }
    }

    method WalkDown(start: Node) returns (visited: seq<Node>)
      requires Shape() && start in Nodes
      ensures 0 <= start.pos < |Order| && visited == Reversed(Order[..start.pos + 1])
    {
      hide Reversed;
      assert NodeOk(start);
      visited := [];
      var x: Node? := start;
      ghost var i := start.pos;
      while x != null
        invariant -1 <= i <= start.pos && visited == Reversed(Order[i + 1..start.pos + 1])
        invariant if x == null then i == -1 else i >= 0 && x == Order[i]
        decreases i + 1
      {
        assert Order[i] in Nodes && NodeOk(Order[i]);
        ReversedGrows(Order, i, start.pos + 1);
        visited := visited + [x];
        x := Predecessor(x);
        i := i - 1;
      }
    }

    // From the minimum, successor visits every node once, in order; from the
    // maximum, predecessor visits them the other way round.
    method WalkBothWays() returns (up: seq<Node>, down: seq<Node>)
      requires Shape()
      ensures up == Order && down == Reversed(Order)
    {
      up, down := [], [];
      if mRoot != null {
        var first := Minimum(mRoot);
        var last := Maximum(mRoot);
        assert NodeOk(mRoot) && first.pos == 0 && last.pos == |Order| - 1;
        up := WalkUp(first);
        down := WalkDown(last);
        assert Order[..|Order|] == Order;
      }
    }

    // Predecessor leads back from where successor has led, and the other way
    // round.
    method ThereAndBack(x: Node) returns (up: Node?, upAndDown: Node?, down: Node?, downAndUp: Node?)
      requires Shape() && x in Nodes
      ensures up != null ==> upAndDown == x
      ensures down != null ==> downAndUp == x
    {
      NextAndPreviousUndoEachOther(x);
      upAndDown, downAndUp := null, null;
      up := Successor(x);
      if up != null {
        upAndDown := Predecessor(up);
      }
      down := Predecessor(x);
      if down != null {
        downAndUp := Successor(down);
      }
    }

    // ---------- repeated keys ----------

    // r has the least key above k, or there is none and r is null.
    ghost predicate LeastAbove(k: int, r: Node?)
      reads this
    {
      if r == null then forall i :: 0 <= i < |Order| ==> Order[i].key <= k
      else k < r.key && forall i :: 0 <= i < |Order| && k < Order[i].key ==> r.key <= Order[i].key
    }

    ghost predicate GreatestBelow(k: int, r: Node?)
      reads this
    {
      if r == null then forall i :: 0 <= i < |Order| ==> k <= Order[i].key
      else r.key < k && forall i :: 0 <= i < |Order| && Order[i].key < k ==> Order[i].key <= r.key
    }

    // The comments above successor and predecessor (algorithm/rbtree.h:290 and
    // 313) promise the next larger and the next smaller key.  That is what comes
    // out exactly when no equal key stands behind x, or in front of it.
    lemma SuccessorIsLarger(x: Node)
      requires Valid() && x in Nodes
      ensures LeastAbove(x.key, Next(x)) <==>
        forall i :: 0 <= i < |Order| && Order[i].key == x.key ==> i <= x.pos
    {
      assert NodeOk(x);
      OrderIsSorted();
    }

    // Every call of the two keeps the promise if and only if no key is repeated.
    ghost predicate KeysDiffer()
      reads this
    {
      forall i, j :: 0 <= i < j < |Order| ==> Order[i].key != Order[j].key
    }

    lemma AlwaysLargerIffKeysDiffer()
      requires Valid()
      ensures (forall x :: x in Nodes ==> LeastAbove(x.key, Next(x))) <==> KeysDiffer()
      ensures (forall x :: x in Nodes ==> GreatestBelow(x.key, Previous(x))) <==> KeysDiffer()
    {
      forall x | x in Nodes
        ensures KeysDiffer() ==> LeastAbove(x.key, Next(x)) && GreatestBelow(x.key, Previous(x))
      {
        assert NodeOk(x);
        SuccessorIsLarger(x);
        PredecessorIsSmaller(x);
      }
      forall i, j | 0 <= i < j < |Order| && Order[i].key == Order[j].key
        ensures Order[i] in Nodes && !LeastAbove(Order[i].key, Next(Order[i]))
        ensures Order[j] in Nodes && !GreatestBelow(Order[j].key, Previous(Order[j]))
      {
        SuccessorIsLarger(Order[i]);
        PredecessorIsSmaller(Order[j]);
      }
    }

    lemma PredecessorIsSmaller(x: Node)
      requires Valid() && x in Nodes
      ensures GreatestBelow(x.key, Previous(x)) <==>
        forall i :: 0 <= i < |Order| && Order[i].key == x.key ==> x.pos <= i
    {
      assert NodeOk(x);
      OrderIsSorted();
    }

    // ---------- the textbook view ----------

    ghost function TreeOf(n: Node?): Tree
      requires Shape() && (n != null ==> n in Nodes)
      reads this, Nodes
      decreases if n == null then 0 else n.hi - n.lo
    {
      if n == null then Leaf else
        assert NodeOk(n);
        assert n.left != null ==> NodeOk(n.left);
        assert n.right != null ==> NodeOk(n.right);
        Branch(n.color, TreeOf(n.left), n.key, TreeOf(n.right))
    }

    // A valid object is a red-black tree in the recursive sense, its in-order
    // keys are Keys(), and its height is at most twice the logarithm of the
    // number of nodes plus one.
    lemma ValidIsRedBlack()
      requires Valid()
      ensures InOrder(TreeOf(mRoot)) == Keys()
      ensures NoRedRed(TreeOf(mRoot)) && RootBlack(TreeOf(mRoot))
      ensures exists b :: BlackHeight(TreeOf(mRoot), b)
      ensures Pow2(Height(TreeOf(mRoot))) <= (|Keys()| + 1) * (|Keys()| + 1)
    {
      if mRoot == null {
        assert BlackHeight(TreeOf(mRoot), 0);
      } else {
        SubtreeInOrder(mRoot);
        SubtreeIsRedBlack(mRoot);
        assert RedOk(mRoot, null, null);
      }
      DepthBound(Height(TreeOf(mRoot)));
    }

    lemma {:induction false} SubtreeInOrder(n: Node)
      requires Shape() && n in Nodes
      ensures 0 <= n.lo <= n.hi <= |Order| && InOrder(TreeOf(n)) == Keys()[n.lo..n.hi]
      decreases n.hi - n.lo
    {
      assert NodeOk(n);
      var l, r := TreeOf(n.left), TreeOf(n.right);
      assert InOrder(l) == Keys()[n.lo..n.pos] by {
        if n.left != null {
          assert NodeOk(n.left);
          SubtreeInOrder(n.left);
        }
      }
      assert InOrder(r) == Keys()[n.pos + 1..n.hi] by {
        if n.right != null {
          assert NodeOk(n.right);
          SubtreeInOrder(n.right);
        }
      }
      JoinSlices(Keys(), n.lo, n.pos, n.hi);
    }

    lemma {:induction false} SubtreeIsRedBlack(n: Node)
      requires Valid() && n in Nodes
      ensures NoRedRed(TreeOf(n)) && BlackHeight(TreeOf(n), n.bh) && Height(TreeOf(n)) <= Depth(n)
      decreases n.hi - n.lo
    {
      hide Sorted;
      assert NodeOk(n) && Bal(n, null, null);
      DepthDrops(n);
      if n.left != null {
        assert NodeOk(n.left) && Bal(n.left, null, null) && RedOk(n.left, null, null);
        SubtreeIsRedBlack(n.left);
      }
      if n.right != null {
        assert NodeOk(n.right) && Bal(n.right, null, null) && RedOk(n.right, null, null);
        SubtreeIsRedBlack(n.right);
      }
    }
  }

  // An example of both: with the key 1 inserted twice, the successor of the
  // first node and the predecessor of the second have the key 1 as well.
  method EqualNeighbours() returns (tree: RBTree, x: Node?, y: Node?)
    ensures tree.Valid() && x != null && y != null && x in tree.Nodes && y in tree.Nodes
    ensures y == tree.Next(x) && y.key == x.key && !tree.LeastAbove(x.key, y)
    ensures x == tree.Previous(y) && !tree.GreatestBelow(y.key, x)
  {
    tree := new RBTree();
    ghost var _, _ := tree.Insert(1);
    ghost var _, _ := tree.Insert(1);
    TwoOnes(tree);
    x := tree.Minimum(tree.mRoot);
    y := tree.Successor(x);
  }

  lemma TwoOnes(tree: RBTree)
    requires tree.Valid() && multiset(tree.Keys()) == multiset{1, 1}
    ensures tree.mRoot != null && tree.mRoot in tree.Nodes && tree.mRoot.lo == 0 && |tree.Order| == 2
    ensures forall i :: 0 <= i < 2 ==> tree.Order[i] in tree.Nodes && tree.Order[i].pos == i && tree.Order[i].key == 1
  {
    assert |multiset(tree.Keys())| == 2;
    assert forall i :: 0 <= i < 2 ==> tree.Keys()[i] in multiset(tree.Keys());
  }

  // ---------- whole runs ----------

  datatype Op = Insert(key: int) | Remove(key: int)

  // What an operation, and a run of them, makes of a multiset of keys.
  ghost function After(keys: multiset<int>, op: Op): multiset<int> {
    match op
    case Insert(key) => keys + multiset{key}
    case Remove(key) => keys - multiset{key}
  }

  ghost function Effect(ops: seq<Op>): multiset<int> {
    if ops == [] then multiset{} else After(Effect(ops[..|ops| - 1]), ops[|ops| - 1])
  }

  method Apply(tree: RBTree, op: Op)
    requires tree.Valid()
    modifies tree, tree.Nodes
    ensures tree.Valid() && fresh(tree.Nodes - old(tree.Nodes))
    ensures multiset(tree.Keys()) == After(old(multiset(tree.Keys())), op)
  {
    hide RBTree.Valid, RBTree.Keys, Pow2;
    match op {
      case Insert(key) => ghost var _, _ := tree.Insert(key);
      case Remove(key) => ghost var _ := tree.Remove(key);
    }
  }

  // algorithm/main.cpp:16-64.  Any run of insertions and removals, from the
  // empty tree, gives a valid tree with the keys that are to be expected.
  method Replay(ops: seq<Op>) returns (tree: RBTree)
    ensures tree.Valid() && multiset(tree.Keys()) == Effect(ops)
  {
    hide RBTree.Valid, RBTree.Keys;
    tree := new RBTree();
    var i := 0;
    while i < |ops|
      invariant 0 <= i <= |ops|
      invariant tree.Valid() && fresh(tree) && fresh(tree.Nodes) && multiset(tree.Keys()) == Effect(ops[..i])
    {
      assert ops[..i + 1][..i] == ops[..i];
      Apply(tree, ops[i]);
      i := i + 1;
    }
    assert ops[..i] == ops;
  }
}
