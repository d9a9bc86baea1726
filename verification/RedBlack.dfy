// Red-black trees with parent pointers.  A ghost sequence holds the nodes in order, and
// every node carries its index there and the interval its subtree covers, so that a
// rotation is seen to move no node.
module RedBlack {
  import opened Powers
  import opened Sequences

  datatype Color = Black | Red

  class Node {
    const key: int
    var left: Node?
    var right: Node?
    var parent: Node?
    var color: Color
    // Place in the tree: index in the in-order sequence, the half-open index
    // interval covered by the subtree, and its number of black levels.
    ghost var pos: int
    ghost var lo: int
    ghost var hi: int
    ghost var bh: nat

    constructor (k: int)
      ensures key == k
    {
      key := k;
    }
  }

  ghost function BlackHeight(n: Node?): nat
    reads n
  {
    if n == null then 0 else n.bh
  }

  predicate IsRed(n: Node?)
    reads n
  {
    n != null && n.color == Red
  }

  ghost predicate Ordered(t: seq<Node>) {
    forall i, j | 0 <= i < j < |t| :: t[i].key < t[j].key
  }

  lemma OrderedWithout(t: seq<Node>, k: int)
    requires Ordered(t)
    ensures Ordered(Without(t, k))
  {
  }

  lemma OrderedWith(t: seq<Node>, k: int, n: Node)
    requires Ordered(t) && 0 <= k <= |t|
    requires forall i | 0 <= i < k :: t[i].key < n.key
    requires forall i | k <= i < |t| :: n.key < t[i].key
    ensures Ordered(With(t, k, n))
  {
  }

  lemma WithoutNext(t: seq<Node>, k: int)
    requires 0 <= k < |t| - 1
    ensures Without(t, k + 1)[k := t[k + 1]] == Without(t, k)
  {
  }

  lemma SquareMonotone(a: nat, b: nat)
    requires a <= b
    ensures a * a <= b * b
  {
    assert a * a <= a * b <= b * b;
  }

  ghost function Keep(t: seq<Node>, drop: set<Node>): seq<Node> {
    if t == [] then [] else
      var front := Keep(t[..|t| - 1], drop);
      if t[|t| - 1] in drop then front else front + [t[|t| - 1]]
  }

  lemma KeepOne(t: seq<Node>, x: Node, drop: set<Node>)
    ensures Keep(t + [x], drop) == if x in drop then Keep(t, drop) else Keep(t, drop) + [x]
  {
    assert (t + [x])[..|t|] == t;
  }

  lemma KeepNext(t: seq<Node>, i: nat, drop: set<Node>)
    requires i < |t|
    ensures Keep(t[..i + 1], drop) == if t[i] in drop then Keep(t[..i], drop) else Keep(t[..i], drop) + [t[i]]
    ensures t[..i + 1] == t[..i] + [t[i]]
  {
    assert t[..i + 1] == t[..i] + [t[i]];
    KeepOne(t[..i], t[i], drop);
  }

  ghost function Span(n: Node?): int
    reads n
  {
    if n == null then 0 else n.hi - n.lo
  }

  class Tree {
    var root: Node?
    ghost var s: seq<Node>       // the nodes in order
    ghost var nodes: set<Node>   // the same nodes, as a footprint

    // RB_INIT
    constructor ()
      ensures Valid() && s == [] && nodes == {}
    {
      root := null;
      s := [];
      nodes := {};
    }

    ghost predicate Linked(n: Node)
      requires n in nodes
      reads this, nodes`left, nodes`right, nodes`parent, nodes`pos, nodes`lo, nodes`hi
    {
      LinkedDown(n) && LinkedUp(n)
    }

    // n sits at its index and its children split its interval around that index.
    ghost predicate LinkedDown(n: Node)
      requires n in nodes
      reads this, nodes`left, nodes`right, nodes`parent, nodes`pos, nodes`lo, nodes`hi
    {
      && 0 <= n.lo <= n.pos < n.hi <= |s| && s[n.pos] == n
      && LinkedDownLeft(n) && LinkedDownRight(n)
    }

    ghost predicate LinkedDownLeft(n: Node)
      requires n in nodes
      reads this, nodes`left, nodes`right, nodes`parent, nodes`pos, nodes`lo, nodes`hi
    {
      && (n.left == null ==> n.lo == n.pos)
      && (n.left != null ==>
          n.left in nodes && n.left.parent == n && n.left.lo == n.lo && n.left.hi == n.pos)
    }

    ghost predicate LinkedDownRight(n: Node)
      requires n in nodes
      reads this, nodes`left, nodes`right, nodes`parent, nodes`pos, nodes`lo, nodes`hi
    {
      && (n.right == null ==> n.hi == n.pos + 1)
      && (n.right != null ==>
          n.right in nodes && n.right.parent == n && n.right.lo == n.pos + 1 && n.right.hi == n.hi)
    }

    ghost predicate LinkedUp(n: Node)
      requires n in nodes
      reads this, nodes`left, nodes`right, nodes`parent, nodes`pos, nodes`lo, nodes`hi
    {
      && (n.parent == null ==> n == root)
      && (n.parent != null ==> n.parent in nodes && (n.parent.left == n || n.parent.right == n))
    }

    ghost predicate Shape()
      reads this, nodes`left, nodes`right, nodes`parent, nodes`pos, nodes`lo, nodes`hi
    {
      && (forall i | 0 <= i < |s| :: s[i] in nodes && s[i].pos == i)
      && (forall n {:trigger Linked(n)} | n in nodes :: Linked(n))
      && (root == null ==> s == [])
      && (root != null ==> root in nodes && root.parent == null && root.lo == 0 && root.hi == |s|)
    }

    ghost predicate BhOk(n: Node)
      reads n, n.left, n.right
    {
      && BlackHeight(n.left) == BlackHeight(n.right)
      && n.bh == BlackHeight(n.left) + (if n.color == Black then 1 else 0)
    }

    ghost predicate RedOk(n: Node)
      reads n, n.parent
    {
      n.color == Red ==> !IsRed(n.parent)
    }

    ghost predicate Sorted()
      reads this
    {
      Ordered(s)
    }

    ghost predicate Valid()
      reads this, nodes
    {
      && Shape()
      && (forall n {:trigger BhOk(n)} | n in nodes :: assert Linked(n); BhOk(n))
      && (forall n {:trigger RedOk(n)} | n in nodes :: assert Linked(n); RedOk(n))
      && !IsRed(root)
      && Sorted()
    }

    // Between two rounds of the insertion fix-up the only possible violations are a
    // red parent of elm and elm being a red root.
    ghost predicate InsertInv(elm: Node)
      reads this, nodes
    {
      && Shape()
      && elm in nodes && elm.color == Red
      && (forall n {:trigger BhOk(n)} | n in nodes :: assert Linked(n); BhOk(n))
      && (forall n {:trigger RedOk(n)} | n in nodes && n != elm :: assert Linked(n); RedOk(n))
      && (IsRed(root) ==> root == elm)
    }

    // elm, its red parent and its grandparent, with the grandparent's children.
    ghost predicate Generations(elm: Node, parent: Node?, gparent: Node?)
      reads this, nodes
    {
      && elm in nodes && parent != null && parent in nodes && gparent != null && gparent in nodes
      && elm.parent == parent && parent.parent == gparent && IsRed(parent)
      && (parent.left == elm || parent.right == elm) && (gparent.left == parent || gparent.right == parent)
      && parent.left != parent.right && gparent.left != gparent.right
      && (gparent.left == null || gparent.left in nodes) && (gparent.right == null || gparent.right in nodes)
    }

    // RB_SET_BLACKRED(black, red), with the black levels of both adjusted.
    twostate predicate Recoloured(black: Node, red: Node)
      reads this, nodes
    {
      && nodes == old(nodes) && black in nodes && red in nodes && black != red
      && black.color == Black && black.bh == old(black.bh) + 1
      && red.color == Red && red.bh == old(red.bh) - 1
      && (forall n | n in old(nodes) && n != black && n != red :: n.color == old(n.color) && n.bh == old(n.bh))
    }

    // The deletion fix-up: every path through elm, a child of parent, is one black
    // node short; nothing else is wrong, except that elm itself may be red (it is
    // then about to be blackened) or be the root.
    ghost predicate Short(parent: Node?, elm: Node?)
      reads this, nodes
    {
      && Shape()
      && (forall n {:trigger BhOk(n)} | n in nodes && n != parent :: assert Linked(n); BhOk(n))
      && (forall n {:trigger RedOk(n)} | n in nodes && n != elm && n.parent != elm :: assert Linked(n); RedOk(n))
      && (parent == null ==> elm == root)
      && (parent != null ==> parent in nodes && (assert Linked(parent); ShortSide(parent, elm)))
      && (IsRed(root) ==> root == elm)
    }

    ghost predicate ShortSide(parent: Node, elm: Node?)
      reads parent, parent.left, parent.right
    {
      (parent.left == elm && ShortLeft(parent)) || (parent.right == elm && ShortRight(parent))
    }

    ghost predicate ShortLeft(parent: Node)
      reads parent, parent.left, parent.right
    {
      && BlackHeight(parent.left) + 1 == BlackHeight(parent.right)
      && parent.bh == BlackHeight(parent.right) + (if parent.color == Black then 1 else 0)
    }

    ghost predicate ShortRight(parent: Node)
      reads parent, parent.left, parent.right
    {
      && BlackHeight(parent.right) + 1 == BlackHeight(parent.left)
      && parent.bh == BlackHeight(parent.left) + (if parent.color == Black then 1 else 0)
    }

    // Everything a valid tree needs except the order of the keys.
    ghost predicate Balanced()
      reads this, nodes
    {
      && Shape()
      && (forall n {:trigger BhOk(n)} | n in nodes :: assert Linked(n); BhOk(n))
      && (forall n {:trigger RedOk(n)} | n in nodes :: assert Linked(n); RedOk(n))
      && !IsRed(root)
    }

    // Colour and black-level change of the two nodes a and b.
    twostate predicate Painted(a: Node, ca: Color, da: int, b: Node, cb: Color, db: int)
      reads this, nodes
    {
      && nodes == old(nodes) && a in nodes && b in nodes
      && a.color == ca && a.bh == old(a.bh) + da
      && b.color == cb && b.bh == old(b.bh) + db
      && (forall n | n in old(nodes) && n != a && n != b :: n.color == old(n.color) && n.bh == old(n.bh))
    }

    // The sibling takes its parent's colour; the parent and the far nephew turn black.
    twostate predicate FarRedPaint(parent: Node, tmp: Node, far: Node?)
      reads this, nodes
    {
      && nodes == old(nodes) && parent in nodes && tmp in nodes && far in nodes
      && tmp.color == old(parent.color) && tmp.bh == old(parent.bh)
      && parent.color == Black && parent.bh == old(tmp.bh)
      && far.color == Black && far.bh == old(far.bh) + 1
      && (forall n | n in old(nodes) && n != parent && n != tmp && n != far ::
            n.color == old(n.color) && n.bh == old(n.bh))
    }

    // The effect of RB_ROTATE_LEFT(elm) on the link fields, cell by cell.
    twostate predicate RelinkedLeft(elm: Node, tmp: Node)
      reads this, nodes, elm, tmp
    {
      && nodes == old(nodes) && elm in nodes && tmp in nodes
      && elm.left == old(elm.left) && elm.right == old(tmp.left)
      && tmp.left == elm && tmp.right == old(tmp.right)
      && elm.parent == tmp && tmp.parent == old(elm.parent)
      && (forall n | n in old(nodes) && n != elm && n != tmp ::
            && n.parent == (if n == old(tmp.left) then elm else old(n.parent))
            && n.left == (if n == old(elm.parent) && old(n.left) == elm then tmp else old(n.left))
            && n.right == (if n == old(elm.parent) && old(n.left) != elm then tmp else old(n.right)))
      && root == (if old(elm.parent) == null then tmp else old(root))
    }

    method RelinkLeft(elm: Node)
      requires elm in nodes && elm.right in nodes && elm.right != elm
      requires elm.parent != elm && elm.parent != elm.right
      requires elm.parent != null ==> elm.parent in nodes && elm.right.left != elm.parent
      requires elm.parent != null ==> (elm.parent.left == elm) != (elm.parent.right == elm)
      requires elm.right.left != elm && elm.right.left != elm.right
      requires elm.right.left != null ==> elm.right.left in nodes
      modifies nodes`left, nodes`right, nodes`parent, `root
      ensures RelinkedLeft(elm, old(elm.right))
    {
      var tmp := elm.right;
      elm.right := tmp.left;
      if elm.right != null {
        tmp.left.parent := elm;
      }
      tmp.parent := elm.parent;
      if tmp.parent != null {
        if elm == elm.parent.left {
          elm.parent.left := tmp;
        } else {
          elm.parent.right := tmp;
        }
      } else {
        root := tmp;
      }
      tmp.left := elm;
      elm.parent := tmp;
    }

    twostate predicate RespannedLeft(elm: Node, tmp: Node)
      reads this, nodes, elm, tmp
    {
      && nodes == old(nodes) && s == old(s)
      && tmp.lo == old(elm.lo) && tmp.hi == old(elm.hi) && elm.lo == old(elm.lo) && elm.hi == tmp.pos
      && (forall n | n in old(nodes) :: n.pos == old(n.pos)
            && (n != elm && n != tmp ==> n.lo == old(n.lo) && n.hi == old(n.hi)))
    }

    twostate lemma RotatedLeftShape(elm: Node)
      requires elm in old(nodes) && old(elm.right) != null
      requires old(Shape())
      requires RelinkedLeft(elm, old(elm.right)) && RespannedLeft(elm, old(elm.right))
      ensures Shape()
    {
      assert old(Linked(elm)) && old(Linked(elm.right));
      forall n {:trigger Linked(n)} | n in nodes
        ensures Linked(n)
      {
        assert old(Linked(n));
      }
    }

    // RB_ROTATE_LEFT: the in-order sequence does not move.
    method RotateLeft(elm: Node)
      requires Shape()
      requires elm in nodes && elm.right != null
      modifies nodes`left, nodes`right, nodes`parent, nodes`lo, nodes`hi, `root
      ensures RelinkedLeft(elm, old(elm.right))
      ensures RespannedLeft(elm, old(elm.right))
      ensures Shape()
    {
      assert Linked(elm); assert Linked(elm.right);
      assert elm.parent != null ==> Linked(elm.parent);
      var tmp := elm.right;
      RelinkLeft(elm);
      ghost var l, h := elm.lo, elm.hi;
      tmp.lo := l;
      tmp.hi := h;
      elm.hi := tmp.pos;
      RotatedLeftShape(elm);
    }

    // The effect of RB_ROTATE_RIGHT(elm) on the link fields, cell by cell.
    twostate predicate RelinkedRight(elm: Node, tmp: Node)
      reads this, nodes, elm, tmp
    {
      && nodes == old(nodes) && elm in nodes && tmp in nodes
      && elm.right == old(elm.right) && elm.left == old(tmp.right)
      && tmp.right == elm && tmp.left == old(tmp.left)
      && elm.parent == tmp && tmp.parent == old(elm.parent)
      && (forall n | n in old(nodes) && n != elm && n != tmp ::
            && n.parent == (if n == old(tmp.right) then elm else old(n.parent))
            && n.left == (if n == old(elm.parent) && old(n.left) == elm then tmp else old(n.left))
            && n.right == (if n == old(elm.parent) && old(n.left) != elm then tmp else old(n.right)))
      && root == (if old(elm.parent) == null then tmp else old(root))
    }

    method RelinkRight(elm: Node)
      requires elm in nodes && elm.left in nodes && elm.left != elm
      requires elm.parent != elm && elm.parent != elm.left
      requires elm.parent != null ==> elm.parent in nodes && elm.left.right != elm.parent
      requires elm.parent != null ==> (elm.parent.left == elm) != (elm.parent.right == elm)
      requires elm.left.right != elm && elm.left.right != elm.left
      requires elm.left.right != null ==> elm.left.right in nodes
      modifies nodes`right, nodes`left, nodes`parent, `root
      ensures RelinkedRight(elm, old(elm.left))
    {
      var tmp := elm.left;
      elm.left := tmp.right;
      if elm.left != null {
        tmp.right.parent := elm;
      }
      tmp.parent := elm.parent;
      if tmp.parent != null {
        if elm == elm.parent.left {
          elm.parent.left := tmp;
        } else {
          elm.parent.right := tmp;
        }
      } else {
        root := tmp;
      }
      tmp.right := elm;
      elm.parent := tmp;
    }

    twostate predicate RespannedRight(elm: Node, tmp: Node)
      reads this, nodes, elm, tmp
    {
      && nodes == old(nodes) && s == old(s)
      && tmp.lo == old(elm.lo) && tmp.hi == old(elm.hi) && elm.lo == tmp.pos + 1 && elm.hi == old(elm.hi)
      && (forall n | n in old(nodes) :: n.pos == old(n.pos)
            && (n != elm && n != tmp ==> n.lo == old(n.lo) && n.hi == old(n.hi)))
    }

    twostate lemma RotatedRightShape(elm: Node)
      requires elm in old(nodes) && old(elm.left) != null
      requires old(Shape())
      requires RelinkedRight(elm, old(elm.left)) && RespannedRight(elm, old(elm.left))
      ensures Shape()
    {
      assert old(Linked(elm)) && old(Linked(elm.left));
      forall n {:trigger Linked(n)} | n in nodes
        ensures Linked(n)
      {
        assert old(Linked(n));
      }
    }

    // RB_ROTATE_RIGHT: the in-order sequence does not move.
    method RotateRight(elm: Node)
      requires Shape()
      requires elm in nodes && elm.left != null
      modifies nodes`right, nodes`left, nodes`parent, nodes`lo, nodes`hi, `root
      ensures RelinkedRight(elm, old(elm.left))
      ensures RespannedRight(elm, old(elm.left))
      ensures Shape()
    {
      assert Linked(elm); assert Linked(elm.left);
      assert elm.parent != null ==> Linked(elm.parent);
      var tmp := elm.left;
      RelinkRight(elm);
      ghost var l, h := elm.lo, elm.hi;
      tmp.lo := l;
      tmp.hi := h;
      elm.lo := tmp.pos + 1;
      RotatedRightShape(elm);
    }

    ghost predicate OuterLeftCase(elm: Node, parent: Node, gparent: Node)
      reads this, nodes
    {
      && InsertInv(elm) && parent in nodes && gparent in nodes
      && elm.parent == parent && parent.parent == gparent && IsRed(parent)
      && gparent.left == parent && parent.left == elm
      && (gparent.right in nodes || gparent.right == null) && !IsRed(gparent.right)
    }

    twostate lemma OuterLeftDone(elm: Node)
      requires old(elm.parent != null && elm.parent.parent != null)
      requires old(OuterLeftCase(elm, elm.parent, elm.parent.parent))
      requires Recoloured(old(elm.parent), old(elm.parent.parent))
      requires RelinkedRight(old(elm.parent.parent), old(elm.parent))
      requires Shape()
      ensures InsertInv(elm) && elm.parent == old(elm.parent) && elm.parent.color == Black
    {
      OuterLeftLevels(elm);
      OuterLeftReds(elm);
      var p := old(elm.parent);
      assert old(Linked(elm)) && old(Linked(p)) && old(Linked(p.parent));
    }

    twostate lemma OuterLeftLevels(elm: Node)
      requires old(elm.parent != null && elm.parent.parent != null)
      requires old(OuterLeftCase(elm, elm.parent, elm.parent.parent))
      requires Recoloured(old(elm.parent), old(elm.parent.parent))
      requires RelinkedRight(old(elm.parent.parent), old(elm.parent))
      requires Shape()
      ensures forall n {:trigger BhOk(n)} | n in nodes :: BhOk(n)
    {
      var p := old(elm.parent);
      var g := old(p.parent);
      assert old(Linked(elm)) && old(Linked(p)) && old(Linked(g));
      assert old(BhOk(p)) && old(BhOk(g)) && old(RedOk(p));
      forall n {:trigger BhOk(n)} | n in nodes
        ensures BhOk(n)
      {
        assert old(Linked(n)) && old(BhOk(n));
      }
    }

    twostate lemma OuterLeftReds(elm: Node)
      requires old(elm.parent != null && elm.parent.parent != null)
      requires old(OuterLeftCase(elm, elm.parent, elm.parent.parent))
      requires Recoloured(old(elm.parent), old(elm.parent.parent))
      requires RelinkedRight(old(elm.parent.parent), old(elm.parent))
      requires Shape()
      ensures forall n {:trigger RedOk(n)} | n in nodes && n != elm :: RedOk(n)
    {
      var p := old(elm.parent);
      assert old(Linked(elm)) && old(Linked(p)) && old(Linked(p.parent)) && old(RedOk(p));
      assert old(p.right) != null ==> old(Linked(p.right)) && old(RedOk(p.right));
      forall n {:trigger RedOk(n)} | n in nodes && n != elm
        ensures RedOk(n)
      {
        assert old(Linked(n)) && old(RedOk(n));
      }
    }

    // Outer case: parent turns black, grandparent red, and a rotation lifts parent.
    method InsertOuterLeft(elm: Node, parent: Node, gparent: Node)
      requires OuterLeftCase(elm, parent, gparent)
      modifies nodes`left, nodes`right, nodes`parent, nodes`lo, nodes`hi, nodes`color, nodes`bh, `root
      ensures InsertInv(elm) && elm.bh == old(elm.bh)
      ensures elm.parent == parent && parent.color == Black
    {
      assert Linked(parent) && Linked(gparent);
      assert BhOk(parent) && BhOk(gparent) && RedOk(parent);
      parent.color := Black;
      gparent.color := Red;
      parent.bh := parent.bh + 1;
      gparent.bh := gparent.bh - 1;
      RotateRight(gparent);
      assert RelinkedRight(gparent, parent);
      OuterLeftDone(elm);
    }

    ghost predicate OuterRightCase(elm: Node, parent: Node, gparent: Node)
      reads this, nodes
    {
      && InsertInv(elm) && parent in nodes && gparent in nodes
      && elm.parent == parent && parent.parent == gparent && IsRed(parent)
      && gparent.right == parent && parent.right == elm
      && (gparent.left in nodes || gparent.left == null) && !IsRed(gparent.left)
    }

    twostate lemma OuterRightDone(elm: Node)
      requires old(elm.parent != null && elm.parent.parent != null)
      requires old(OuterRightCase(elm, elm.parent, elm.parent.parent))
      requires Recoloured(old(elm.parent), old(elm.parent.parent))
      requires RelinkedLeft(old(elm.parent.parent), old(elm.parent))
      requires Shape()
      ensures InsertInv(elm) && elm.parent == old(elm.parent) && elm.parent.color == Black
    {
      OuterRightLevels(elm);
      OuterRightReds(elm);
      var p := old(elm.parent);
      assert old(Linked(elm)) && old(Linked(p)) && old(Linked(p.parent));
    }

    twostate lemma OuterRightLevels(elm: Node)
      requires old(elm.parent != null && elm.parent.parent != null)
      requires old(OuterRightCase(elm, elm.parent, elm.parent.parent))
      requires Recoloured(old(elm.parent), old(elm.parent.parent))
      requires RelinkedLeft(old(elm.parent.parent), old(elm.parent))
      requires Shape()
      ensures forall n {:trigger BhOk(n)} | n in nodes :: BhOk(n)
    {
      var p := old(elm.parent);
      var g := old(p.parent);
      assert old(Linked(elm)) && old(Linked(p)) && old(Linked(g));
      assert old(BhOk(p)) && old(BhOk(g)) && old(RedOk(p));
      forall n {:trigger BhOk(n)} | n in nodes
        ensures BhOk(n)
      {
        assert old(Linked(n)) && old(BhOk(n));
      }
    }

    twostate lemma OuterRightReds(elm: Node)
      requires old(elm.parent != null && elm.parent.parent != null)
      requires old(OuterRightCase(elm, elm.parent, elm.parent.parent))
      requires Recoloured(old(elm.parent), old(elm.parent.parent))
      requires RelinkedLeft(old(elm.parent.parent), old(elm.parent))
      requires Shape()
      ensures forall n {:trigger RedOk(n)} | n in nodes && n != elm :: RedOk(n)
    {
      var p := old(elm.parent);
      assert old(Linked(elm)) && old(Linked(p)) && old(Linked(p.parent)) && old(RedOk(p));
      assert old(p.left) != null ==> old(Linked(p.left)) && old(RedOk(p.left));
      forall n {:trigger RedOk(n)} | n in nodes && n != elm
        ensures RedOk(n)
      {
        assert old(Linked(n)) && old(RedOk(n));
      }
    }

    // Outer case: parent turns black, grandparent red, and a rotation lifts parent.
    method InsertOuterRight(elm: Node, parent: Node, gparent: Node)
      requires OuterRightCase(elm, parent, gparent)
      modifies nodes`right, nodes`left, nodes`parent, nodes`lo, nodes`hi, nodes`color, nodes`bh, `root
      ensures InsertInv(elm) && elm.bh == old(elm.bh)
      ensures elm.parent == parent && parent.color == Black
    {
      assert Linked(parent) && Linked(gparent);
      assert BhOk(parent) && BhOk(gparent) && RedOk(parent);
      parent.color := Black;
      gparent.color := Red;
      parent.bh := parent.bh + 1;
      gparent.bh := gparent.bh - 1;
      RotateLeft(gparent);
      assert RelinkedLeft(gparent, parent);
      OuterRightDone(elm);
    }

    // Inner case: elm is the right child of a left child; rotating parent down
    // swaps the two names and leaves the outer case.
    method InsertInnerLeft(elm: Node, parent: Node, gparent: Node)
      requires InsertInv(elm) && parent in nodes && gparent in nodes
      requires elm.parent == parent && parent.parent == gparent && IsRed(parent)
      requires gparent.left == parent && parent.right == elm && parent.left != elm
      requires (gparent.right in nodes || gparent.right == null) && !IsRed(gparent.right)
      modifies nodes`left, nodes`right, nodes`parent, nodes`lo, nodes`hi, `root
      ensures OuterLeftCase(parent, elm, gparent) && parent.bh == old(elm.bh)
    {
      assert Linked(elm) && Linked(parent) && Linked(gparent);
      assert BhOk(elm) && BhOk(parent) && RedOk(parent);
      RotateLeft(parent);
      forall n {:trigger BhOk(n)} | n in nodes
        ensures BhOk(n)
      {
        assert old(Linked(n)) && old(BhOk(n));
      }
      forall n {:trigger RedOk(n)} | n in nodes && n != parent
        ensures RedOk(n)
      {
        assert old(Linked(n)) && old(n != elm ==> RedOk(n));
      }
    }

    // Inner case: elm is the left child of a right child; rotating parent down
    // swaps the two names and leaves the outer case.
    method InsertInnerRight(elm: Node, parent: Node, gparent: Node)
      requires InsertInv(elm) && parent in nodes && gparent in nodes
      requires elm.parent == parent && parent.parent == gparent && IsRed(parent)
      requires gparent.right == parent && parent.left == elm && parent.right != elm
      requires (gparent.left in nodes || gparent.left == null) && !IsRed(gparent.left)
      modifies nodes`right, nodes`left, nodes`parent, nodes`lo, nodes`hi, `root
      ensures OuterRightCase(parent, elm, gparent) && parent.bh == old(elm.bh)
    {
      assert Linked(elm) && Linked(parent) && Linked(gparent);
      assert BhOk(elm) && BhOk(parent) && RedOk(parent);
      RotateRight(parent);
      forall n {:trigger BhOk(n)} | n in nodes
        ensures BhOk(n)
      {
        assert old(Linked(n)) && old(BhOk(n));
      }
      forall n {:trigger RedOk(n)} | n in nodes && n != parent
        ensures RedOk(n)
      {
        assert old(Linked(n)) && old(n != elm ==> RedOk(n));
      }
    }

    // Red sibling: parent turns red below it, and elm gets a black sibling.
    method RemoveRedSiblingLeft(parent: Node, elm: Node?, tmp: Node)
      requires Short(parent, elm) && parent.left == elm && !IsRed(elm)
      requires parent in nodes && parent.right == tmp && IsRed(tmp)
      modifies nodes`left, nodes`right, nodes`parent, nodes`lo, nodes`hi, nodes`color, nodes`bh, `root
      ensures parent.right != null && BlackSiblingLeft(parent, elm, parent.right)
      ensures elm != null ==> elm.lo == old(elm.lo) && elm.hi == old(elm.hi) && elm.bh == old(elm.bh)
    {
      RedSiblingLeft(parent, elm, tmp);
      tmp.color := Black;
      parent.color := Red;
      tmp.bh := tmp.bh + 1;
      parent.bh := parent.bh - 1;
      RotateLeft(parent);
      RedSiblingDoneLeft((parent, elm, tmp));
    }

    ghost predicate RedSiblingCaseLeft(parent: Node, elm: Node?, tmp: Node)
      reads this, nodes
    {
      && Short(parent, elm) && parent in nodes && tmp in nodes && (elm == null || elm in nodes)
      && parent.left == elm && parent.right == tmp && tmp.parent == parent
      && !IsRed(elm) && IsRed(tmp) && parent.color == Black
      && tmp.left in nodes && tmp.right in nodes && !IsRed(tmp.left) && !IsRed(tmp.right)
      && tmp != parent && tmp != elm && tmp.left != parent && tmp.left != elm && tmp.right != parent
      && BlackHeight(elm) + 1 == tmp.bh == tmp.left.bh == tmp.right.bh == parent.bh - 1
    }

    lemma RedSiblingLeft(parent: Node, elm: Node?, tmp: Node)
      requires Short(parent, elm) && parent.left == elm && !IsRed(elm)
      requires parent in nodes && parent.right == tmp && IsRed(tmp)
      ensures RedSiblingCaseLeft(parent, elm, tmp)
    {
      assert Linked(parent) && Linked(tmp);
      assert BhOk(tmp) && RedOk(tmp);
      assert Linked(tmp.left) && Linked(tmp.right);
      assert RedOk(tmp.left) && RedOk(tmp.right);
    }

    twostate lemma RedSiblingDoneLeft(c: (Node, Node?, Node))
      requires var (parent, elm, tmp) := c; old(RedSiblingCaseLeft(parent, elm, tmp))
      requires var (parent, elm, tmp) := c; Painted(tmp, Black, 1, parent, Red, -1) && RelinkedLeft(parent, tmp)
      requires Shape()
      ensures var (parent, elm, tmp) := c; parent.right != null && BlackSiblingLeft(parent, elm, parent.right)
    {
      var (parent, elm, tmp) := c;
      assert old(Linked(parent)) && old(Linked(tmp)) && old(Linked(tmp.left));
      assert Linked(parent) && Linked(parent.right);
      forall n {:trigger BhOk(n)} | n in nodes && n != parent
        ensures BhOk(n)
      {
        assert old(Linked(n)) && old(BhOk(n));
      }
      forall n {:trigger RedOk(n)} | n in nodes && n != elm && n.parent != elm
        ensures RedOk(n)
      {
        assert old(Linked(n)) && old(n.parent != elm ==> RedOk(n));
      }
    }

    // Red sibling: parent turns red below it, and elm gets a black sibling.
    method RemoveRedSiblingRight(parent: Node, elm: Node?, tmp: Node)
      requires Short(parent, elm) && parent.right == elm && !IsRed(elm)
      requires parent in nodes && parent.left == tmp && IsRed(tmp)
      modifies nodes`right, nodes`left, nodes`parent, nodes`lo, nodes`hi, nodes`color, nodes`bh, `root
      ensures parent.left != null && BlackSiblingRight(parent, elm, parent.left)
      ensures elm != null ==> elm.lo == old(elm.lo) && elm.hi == old(elm.hi) && elm.bh == old(elm.bh)
    {
      RedSiblingRight(parent, elm, tmp);
      tmp.color := Black;
      parent.color := Red;
      tmp.bh := tmp.bh + 1;
      parent.bh := parent.bh - 1;
      RotateRight(parent);
      RedSiblingDoneRight((parent, elm, tmp));
    }

    ghost predicate RedSiblingCaseRight(parent: Node, elm: Node?, tmp: Node)
      reads this, nodes
    {
      && Short(parent, elm) && parent in nodes && tmp in nodes && (elm == null || elm in nodes)
      && parent.right == elm && parent.left == tmp && tmp.parent == parent
      && !IsRed(elm) && IsRed(tmp) && parent.color == Black
      && tmp.right in nodes && tmp.left in nodes && !IsRed(tmp.right) && !IsRed(tmp.left)
      && tmp != parent && tmp != elm && tmp.right != parent && tmp.right != elm && tmp.left != parent
      && BlackHeight(elm) + 1 == tmp.bh == tmp.right.bh == tmp.left.bh == parent.bh - 1
    }

    lemma RedSiblingRight(parent: Node, elm: Node?, tmp: Node)
      requires Short(parent, elm) && parent.right == elm && !IsRed(elm)
      requires parent in nodes && parent.left == tmp && IsRed(tmp)
      ensures RedSiblingCaseRight(parent, elm, tmp)
    {
      assert Linked(parent) && Linked(tmp);
      assert BhOk(tmp) && RedOk(tmp);
      assert Linked(tmp.right) && Linked(tmp.left);
      assert RedOk(tmp.right) && RedOk(tmp.left);
    }

    twostate lemma RedSiblingDoneRight(c: (Node, Node?, Node))
      requires var (parent, elm, tmp) := c; old(RedSiblingCaseRight(parent, elm, tmp))
      requires var (parent, elm, tmp) := c; Painted(tmp, Black, 1, parent, Red, -1) && RelinkedRight(parent, tmp)
      requires Shape()
      ensures var (parent, elm, tmp) := c; parent.left != null && BlackSiblingRight(parent, elm, parent.left)
    {
      var (parent, elm, tmp) := c;
      assert old(Linked(parent)) && old(Linked(tmp)) && old(Linked(tmp.right));
      assert Linked(parent) && Linked(parent.left);
      forall n {:trigger BhOk(n)} | n in nodes && n != parent
        ensures BhOk(n)
      {
        assert old(Linked(n)) && old(BhOk(n));
      }
      forall n {:trigger RedOk(n)} | n in nodes && n != elm && n.parent != elm
        ensures RedOk(n)
      {
        assert old(Linked(n)) && old(n.parent != elm ==> RedOk(n));
      }
    }

    // Near nephew red, far nephew black: tmp turns red under its blackened left
    // child, which becomes the sibling and has a red far child.
    method RemoveNearRedLeft(parent: Node, elm: Node?, tmp: Node)
      requires NearRedCaseLeft(parent, elm, tmp, tmp.left)
      modifies nodes`left, nodes`right, nodes`parent, nodes`lo, nodes`hi, nodes`color, nodes`bh, `root
      ensures FarRedCaseLeft(parent, elm, parent.right, tmp)
      ensures BlackHeight(elm) == old(BlackHeight(elm))
    {
      var oleft := tmp.left;
      if oleft != null {
        oleft.color := Black;
        oleft.bh := oleft.bh + 1;
      }
      tmp.color := Red;
      tmp.bh := tmp.bh - 1;
      RotateRight(tmp);
      NearRedDoneLeft((parent, elm, tmp, oleft));
    }

    // A black sibling tmp of elm on the right, with at least one red child.
    ghost predicate BlackSiblingLeft(parent: Node, elm: Node?, tmp: Node)
      reads this, nodes
    {
      && Short(parent, elm) && parent in nodes && tmp in nodes && tmp != parent && tmp != elm && parent != elm
      && (elm == null || elm in nodes) && !IsRed(elm)
      && parent.left == elm && parent.right == tmp && tmp.parent == parent && tmp.color == Black
      && (tmp.left == null || tmp.left in nodes) && (tmp.right == null || tmp.right in nodes)
      && BlackHeight(elm) + 1 == tmp.bh && ShortLeft(parent)
    }

    ghost predicate NearRedCaseLeft(parent: Node, elm: Node?, tmp: Node, oleft: Node?)
      reads this, nodes
    {
      && BlackSiblingLeft(parent, elm, tmp) && tmp.left == oleft
      && IsRed(oleft) && !IsRed(tmp.right)
    }

    ghost predicate FarRedCaseLeft(parent: Node, elm: Node?, tmp: Node?, far: Node?)
      reads this, nodes
    {
      tmp != null && BlackSiblingLeft(parent, elm, tmp) && tmp.right == far && IsRed(far)
    }

    twostate lemma NearRedDoneLeft(c: (Node, Node?, Node, Node))
      requires var (parent, elm, tmp, oleft) := c; old(NearRedCaseLeft(parent, elm, tmp, oleft))
      requires var (parent, elm, tmp, oleft) := c; Painted(oleft, Black, 1, tmp, Red, -1) && RelinkedRight(tmp, oleft)
      requires Shape()
      ensures var (parent, elm, tmp, oleft) := c; FarRedCaseLeft(parent, elm, oleft, tmp) && parent.right == oleft
    {
      var (parent, elm, tmp, oleft) := c;
      assert old(Linked(parent)) && old(Linked(tmp)) && old(Linked(oleft));
      assert old(BhOk(tmp)) && old(BhOk(oleft)) && old(RedOk(oleft));
      assert old(oleft.right) != null ==> old(Linked(oleft.right)) && old(RedOk(oleft.right));
      forall n {:trigger BhOk(n)} | n in nodes && n != parent
        ensures BhOk(n)
      {
        assert old(Linked(n)) && old(BhOk(n));
      }
      forall n {:trigger RedOk(n)} | n in nodes && n != elm && n.parent != elm
        ensures RedOk(n)
      {
        assert old(Linked(n)) && old(n.parent != elm ==> RedOk(n));
      }
    }

    // Near nephew red, far nephew black: tmp turns red under its blackened right
    // child, which becomes the sibling and has a red far child.
    method RemoveNearRedRight(parent: Node, elm: Node?, tmp: Node)
      requires NearRedCaseRight(parent, elm, tmp, tmp.right)
      modifies nodes`right, nodes`left, nodes`parent, nodes`lo, nodes`hi, nodes`color, nodes`bh, `root
      ensures FarRedCaseRight(parent, elm, parent.left, tmp)
      ensures BlackHeight(elm) == old(BlackHeight(elm))
    {
      var oright := tmp.right;
      if oright != null {
        oright.color := Black;
        oright.bh := oright.bh + 1;
      }
      tmp.color := Red;
      tmp.bh := tmp.bh - 1;
      RotateLeft(tmp);
      NearRedDoneRight((parent, elm, tmp, oright));
    }

    // A black sibling tmp of elm on the left, with at least one red child.
    ghost predicate BlackSiblingRight(parent: Node, elm: Node?, tmp: Node)
      reads this, nodes
    {
      && Short(parent, elm) && parent in nodes && tmp in nodes && tmp != parent && tmp != elm && parent != elm
      && (elm == null || elm in nodes) && !IsRed(elm)
      && parent.right == elm && parent.left == tmp && tmp.parent == parent && tmp.color == Black
      && (tmp.right == null || tmp.right in nodes) && (tmp.left == null || tmp.left in nodes)
      && BlackHeight(elm) + 1 == tmp.bh && ShortRight(parent)
    }

    ghost predicate NearRedCaseRight(parent: Node, elm: Node?, tmp: Node, oright: Node?)
      reads this, nodes
    {
      && BlackSiblingRight(parent, elm, tmp) && tmp.right == oright
      && IsRed(oright) && !IsRed(tmp.left)
    }

    ghost predicate FarRedCaseRight(parent: Node, elm: Node?, tmp: Node?, far: Node?)
      reads this, nodes
    {
      tmp != null && BlackSiblingRight(parent, elm, tmp) && tmp.left == far && IsRed(far)
    }

    twostate lemma NearRedDoneRight(c: (Node, Node?, Node, Node))
      requires var (parent, elm, tmp, oright) := c; old(NearRedCaseRight(parent, elm, tmp, oright))
      requires var (parent, elm, tmp, oright) := c; Painted(oright, Black, 1, tmp, Red, -1) && RelinkedLeft(tmp, oright)
      requires Shape()
      ensures var (parent, elm, tmp, oright) := c; FarRedCaseRight(parent, elm, oright, tmp) && parent.left == oright
    {
      var (parent, elm, tmp, oright) := c;
      assert old(Linked(parent)) && old(Linked(tmp)) && old(Linked(oright));
      assert old(BhOk(tmp)) && old(BhOk(oright)) && old(RedOk(oright));
      assert old(oright.left) != null ==> old(Linked(oright.left)) && old(RedOk(oright.left));
      forall n {:trigger BhOk(n)} | n in nodes && n != parent
        ensures BhOk(n)
      {
        assert old(Linked(n)) && old(BhOk(n));
      }
      forall n {:trigger RedOk(n)} | n in nodes && n != elm && n.parent != elm
        ensures RedOk(n)
      {
        assert old(Linked(n)) && old(n.parent != elm ==> RedOk(n));
      }
    }

    // Far nephew red: one rotation at parent ends the fix-up.
    method RemoveFarRedLeft(parent: Node, elm: Node?, tmp: Node)
      requires FarRedCaseLeft(parent, elm, tmp, tmp.right)
      modifies nodes`left, nodes`right, nodes`parent, nodes`lo, nodes`hi, nodes`color, nodes`bh, `root
      ensures Balanced() && BlackHeight(elm) == old(BlackHeight(elm))
    {
      PaintFarRedLeft(parent, elm, tmp);
      RotateLeft(parent);
      FarRedDoneLeft((parent, elm, tmp, old(tmp.right)));
    }

    method PaintFarRedLeft(parent: Node, ghost elm: Node?, tmp: Node)
      requires FarRedCaseLeft(parent, elm, tmp, tmp.right)
      modifies nodes`color, nodes`bh
      ensures FarRedPaint(parent, tmp, tmp.right)
    {
      assert Linked(tmp) && Linked(parent);
      tmp.color := parent.color;
      parent.color := Black;
      if tmp.right != null {
        tmp.right.color := Black;
        tmp.right.bh := tmp.right.bh + 1;
      }
      ghost var b := parent.bh;
      parent.bh := tmp.bh;
      tmp.bh := b;
    }

    twostate lemma FarRedDoneLeft(c: (Node, Node?, Node, Node))
      requires var (parent, elm, tmp, far) := c; old(FarRedCaseLeft(parent, elm, tmp, far))
      requires var (parent, elm, tmp, far) := c; FarRedPaint(parent, tmp, far) && RelinkedLeft(parent, tmp)
      requires Shape()
      ensures Balanced()
    {
      var (parent, elm, tmp, far) := c;
      FarRedLevelsLeft(c);
      FarRedRedsLeft(c);
      assert old(Linked(parent)) && old(Linked(tmp));
    }

    twostate lemma FarRedLevelsLeft(c: (Node, Node?, Node, Node))
      requires var (parent, elm, tmp, far) := c; old(FarRedCaseLeft(parent, elm, tmp, far))
      requires var (parent, elm, tmp, far) := c; FarRedPaint(parent, tmp, far) && RelinkedLeft(parent, tmp)
      requires Shape()
      ensures forall n {:trigger BhOk(n)} | n in nodes :: BhOk(n)
    {
      var (parent, elm, tmp, far) := c;
      assert old(Linked(parent)) && old(Linked(tmp)) && old(Linked(far));
      assert old(BhOk(tmp)) && old(BhOk(far));
      assert elm != null ==> old(Linked(elm));
      forall n {:trigger BhOk(n)} | n in nodes
        ensures BhOk(n)
      {
        assert old(Linked(n)) && old(n != parent ==> BhOk(n));
      }
    }

    twostate lemma FarRedRedsLeft(c: (Node, Node?, Node, Node))
      requires var (parent, elm, tmp, far) := c; old(FarRedCaseLeft(parent, elm, tmp, far))
      requires var (parent, elm, tmp, far) := c; FarRedPaint(parent, tmp, far) && RelinkedLeft(parent, tmp)
      requires Shape()
      ensures forall n {:trigger RedOk(n)} | n in nodes :: RedOk(n)
    {
      var (parent, elm, tmp, far) := c;
      assert old(Linked(parent)) && old(Linked(tmp)) && old(Linked(far));
      assert elm != null ==> old(Linked(elm));
      assert old(RedOk(parent));
      forall n {:trigger RedOk(n)} | n in nodes
        ensures RedOk(n)
      {
        assert old(Linked(n)) && old(n != elm && n.parent != elm ==> RedOk(n));
      }
    }

    // Far nephew red: one rotation at parent ends the fix-up.
    method RemoveFarRedRight(parent: Node, elm: Node?, tmp: Node)
      requires FarRedCaseRight(parent, elm, tmp, tmp.left)
      modifies nodes`right, nodes`left, nodes`parent, nodes`lo, nodes`hi, nodes`color, nodes`bh, `root
      ensures Balanced() && BlackHeight(elm) == old(BlackHeight(elm))
    {
      PaintFarRedRight(parent, elm, tmp);
      RotateRight(parent);
      FarRedDoneRight((parent, elm, tmp, old(tmp.left)));
    }

    method PaintFarRedRight(parent: Node, ghost elm: Node?, tmp: Node)
      requires FarRedCaseRight(parent, elm, tmp, tmp.left)
      modifies nodes`color, nodes`bh
      ensures FarRedPaint(parent, tmp, tmp.left)
    {
      assert Linked(tmp) && Linked(parent);
      tmp.color := parent.color;
      parent.color := Black;
      if tmp.left != null {
        tmp.left.color := Black;
        tmp.left.bh := tmp.left.bh + 1;
      }
      ghost var b := parent.bh;
      parent.bh := tmp.bh;
      tmp.bh := b;
    }

    twostate lemma FarRedDoneRight(c: (Node, Node?, Node, Node))
      requires var (parent, elm, tmp, far) := c; old(FarRedCaseRight(parent, elm, tmp, far))
      requires var (parent, elm, tmp, far) := c; FarRedPaint(parent, tmp, far) && RelinkedRight(parent, tmp)
      requires Shape()
      ensures Balanced()
    {
      var (parent, elm, tmp, far) := c;
      FarRedLevelsRight(c);
      FarRedRedsRight(c);
      assert old(Linked(parent)) && old(Linked(tmp));
    }

    twostate lemma FarRedLevelsRight(c: (Node, Node?, Node, Node))
      requires var (parent, elm, tmp, far) := c; old(FarRedCaseRight(parent, elm, tmp, far))
      requires var (parent, elm, tmp, far) := c; FarRedPaint(parent, tmp, far) && RelinkedRight(parent, tmp)
      requires Shape()
      ensures forall n {:trigger BhOk(n)} | n in nodes :: BhOk(n)
    {
      var (parent, elm, tmp, far) := c;
      assert old(Linked(parent)) && old(Linked(tmp)) && old(Linked(far));
      assert old(BhOk(tmp)) && old(BhOk(far));
      assert elm != null ==> old(Linked(elm));
      forall n {:trigger BhOk(n)} | n in nodes
        ensures BhOk(n)
      {
        assert old(Linked(n)) && old(n != parent ==> BhOk(n));
      }
    }

    twostate lemma FarRedRedsRight(c: (Node, Node?, Node, Node))
      requires var (parent, elm, tmp, far) := c; old(FarRedCaseRight(parent, elm, tmp, far))
      requires var (parent, elm, tmp, far) := c; FarRedPaint(parent, tmp, far) && RelinkedRight(parent, tmp)
      requires Shape()
      ensures forall n {:trigger RedOk(n)} | n in nodes :: RedOk(n)
    {
      var (parent, elm, tmp, far) := c;
      assert old(Linked(parent)) && old(Linked(tmp)) && old(Linked(far));
      assert elm != null ==> old(Linked(elm));
      assert old(RedOk(parent));
      forall n {:trigger RedOk(n)} | n in nodes
        ensures RedOk(n)
      {
        assert old(Linked(n)) && old(n != elm && n.parent != elm ==> RedOk(n));
      }
    }

    lemma SiblingLeft(parent: Node, elm: Node?)
      requires Short(parent, elm) && parent in nodes && parent.left == elm && !IsRed(elm)
      ensures parent.right in nodes
      ensures !IsRed(parent.right) ==> BlackSiblingLeft(parent, elm, parent.right)
      ensures parent.right.left in nodes || parent.right.left == null
      ensures parent.right.right in nodes || parent.right.right == null
    {
      assert Linked(parent);
      assert ShortLeft(parent);
      assert Linked(parent.right);
      assert elm != null ==> Linked(elm);
    }

    // No red nephew: the sibling turns red and the shortage moves up to parent.
    method RemoveBlackNephewsLeft(parent: Node, elm: Node?, tmp: Node)
      requires BlackSiblingLeft(parent, elm, tmp) && !IsRed(tmp.left) && !IsRed(tmp.right)
      modifies nodes`color, nodes`bh
      ensures Short(parent.parent, parent)
      ensures parent.bh == old(BlackHeight(elm)) + (if parent.color == Black then 1 else 0)
    {
      assert parent.parent != null ==> Linked(parent) && BhOk(parent.parent) && Linked(parent.parent);
      tmp.color := Red;
      tmp.bh := tmp.bh - 1;
      parent.bh := parent.bh - 1;
      BlackNephewsDoneLeft((parent, elm, tmp));
    }

    twostate lemma BlackNephewsDoneLeft(c: (Node, Node?, Node))
      requires var (parent, elm, tmp) := c;
        old(BlackSiblingLeft(parent, elm, tmp) && !IsRed(tmp.left) && !IsRed(tmp.right))
      requires var (parent, elm, tmp) := c; Painted(tmp, Red, -1, parent, old(parent.color), -1)
      requires Shape() && root == old(root)
      requires forall n | n in old(nodes) ::
        n.left == old(n.left) && n.right == old(n.right) && n.parent == old(n.parent)
      ensures Short(c.0.parent, c.0)
    {
      var (parent, elm, tmp) := c;
      BlackNephewsLevelsLeft(c);
      assert Linked(parent) && Linked(tmp);
      assert elm != null ==> Linked(elm);
      assert parent.parent != null ==> Linked(parent.parent) && old(BhOk(parent.parent));
      forall n {:trigger RedOk(n)} | n in nodes && n != parent && n.parent != parent
        ensures RedOk(n)
      {
        assert Linked(n) && old(n != elm && n.parent != elm ==> RedOk(n));
      }
    }

    twostate lemma BlackNephewsLevelsLeft(c: (Node, Node?, Node))
      requires var (parent, elm, tmp) := c;
        old(BlackSiblingLeft(parent, elm, tmp) && !IsRed(tmp.left) && !IsRed(tmp.right))
      requires var (parent, elm, tmp) := c; Painted(tmp, Red, -1, parent, old(parent.color), -1)
      requires Shape() && root == old(root)
      requires forall n | n in old(nodes) ::
        n.left == old(n.left) && n.right == old(n.right) && n.parent == old(n.parent)
      ensures forall n {:trigger BhOk(n)} | n in nodes && n != c.0.parent :: BhOk(n)
    {
      var (parent, elm, tmp) := c;
      assert Linked(parent) && Linked(tmp) && old(BhOk(tmp));
      assert elm != null ==> Linked(elm);
      forall n {:trigger BhOk(n)} | n in nodes && n != parent.parent
        ensures BhOk(n)
      {
        assert Linked(n) && old(n != parent ==> BhOk(n));
      }
    }

    lemma SiblingRight(parent: Node, elm: Node?)
      requires Short(parent, elm) && parent in nodes && parent.right == elm && !IsRed(elm)
      ensures parent.left in nodes
      ensures !IsRed(parent.left) ==> BlackSiblingRight(parent, elm, parent.left)
      ensures parent.left.right in nodes || parent.left.right == null
      ensures parent.left.left in nodes || parent.left.left == null
    {
      assert Linked(parent);
      assert ShortRight(parent);
      assert Linked(parent.left);
      assert elm != null ==> Linked(elm);
    }

    // No red nephew: the sibling turns red and the shortage moves up to parent.
    method RemoveBlackNephewsRight(parent: Node, elm: Node?, tmp: Node)
      requires BlackSiblingRight(parent, elm, tmp) && !IsRed(tmp.right) && !IsRed(tmp.left)
      modifies nodes`color, nodes`bh
      ensures Short(parent.parent, parent)
      ensures parent.bh == old(BlackHeight(elm)) + (if parent.color == Black then 1 else 0)
    {
      assert parent.parent != null ==> Linked(parent) && BhOk(parent.parent) && Linked(parent.parent);
      tmp.color := Red;
      tmp.bh := tmp.bh - 1;
      parent.bh := parent.bh - 1;
      BlackNephewsDoneRight((parent, elm, tmp));
    }

    twostate lemma BlackNephewsDoneRight(c: (Node, Node?, Node))
      requires var (parent, elm, tmp) := c;
        old(BlackSiblingRight(parent, elm, tmp) && !IsRed(tmp.right) && !IsRed(tmp.left))
      requires var (parent, elm, tmp) := c; Painted(tmp, Red, -1, parent, old(parent.color), -1)
      requires Shape() && root == old(root)
      requires forall n | n in old(nodes) ::
        n.right == old(n.right) && n.left == old(n.left) && n.parent == old(n.parent)
      ensures Short(c.0.parent, c.0)
    {
      var (parent, elm, tmp) := c;
      BlackNephewsLevelsRight(c);
      assert Linked(parent) && Linked(tmp);
      assert elm != null ==> Linked(elm);
      assert parent.parent != null ==> Linked(parent.parent) && old(BhOk(parent.parent));
      forall n {:trigger RedOk(n)} | n in nodes && n != parent && n.parent != parent
        ensures RedOk(n)
      {
        assert Linked(n) && old(n != elm && n.parent != elm ==> RedOk(n));
      }
    }

    twostate lemma BlackNephewsLevelsRight(c: (Node, Node?, Node))
      requires var (parent, elm, tmp) := c;
        old(BlackSiblingRight(parent, elm, tmp) && !IsRed(tmp.right) && !IsRed(tmp.left))
      requires var (parent, elm, tmp) := c; Painted(tmp, Red, -1, parent, old(parent.color), -1)
      requires Shape() && root == old(root)
      requires forall n | n in old(nodes) ::
        n.right == old(n.right) && n.left == old(n.left) && n.parent == old(n.parent)
      ensures forall n {:trigger BhOk(n)} | n in nodes && n != c.0.parent :: BhOk(n)
    {
      var (parent, elm, tmp) := c;
      assert Linked(parent) && Linked(tmp) && old(BhOk(tmp));
      assert elm != null ==> Linked(elm);
      forall n {:trigger BhOk(n)} | n in nodes && n != parent.parent
        ensures BhOk(n)
      {
        assert Linked(n) && old(n != parent ==> BhOk(n));
      }
    }

    // One round of RB_REMOVE_COLOR with elm on the left: either the shortage moves
    // up to parent, or the tree is balanced again.
    method RemoveRoundLeft(parent: Node, elm: Node?) returns (up: bool)
      requires Short(parent, elm) && parent in nodes && parent.left == elm && !IsRed(elm)
      modifies nodes`left, nodes`right, nodes`parent, nodes`lo, nodes`hi, nodes`color, nodes`bh, `root
      ensures up ==> Short(parent.parent, parent) && Span(parent) > old(Span(elm))
      ensures up ==> parent.bh == old(BlackHeight(elm)) + (if parent.color == Black then 1 else 0)
      ensures !up ==> Balanced() && BlackHeight(elm) == old(BlackHeight(elm))
    {
      SiblingLeft(parent, elm);
      var tmp := parent.right;
      if tmp.color == Red {
        RemoveRedSiblingLeft(parent, elm, tmp);
        tmp := parent.right;
      }
      assert Span(elm) == old(Span(elm)) && Span(parent) > Span(elm) by {
        assert Linked(parent);
      }
      if (tmp.left == null || tmp.left.color == Black) && (tmp.right == null || tmp.right.color == Black) {
        RemoveBlackNephewsLeft(parent, elm, tmp);
        return true;
      }
      if tmp.right == null || tmp.right.color == Black {
        RemoveNearRedLeft(parent, elm, tmp);
        tmp := parent.right;
      }
      RemoveFarRedLeft(parent, elm, tmp);
      return false;
    }

    // One round of RB_REMOVE_COLOR with elm on the right: either the shortage moves
    // up to parent, or the tree is balanced again.
    method RemoveRoundRight(parent: Node, elm: Node?) returns (up: bool)
      requires Short(parent, elm) && parent in nodes && parent.right == elm && !IsRed(elm)
      modifies nodes`right, nodes`left, nodes`parent, nodes`lo, nodes`hi, nodes`color, nodes`bh, `root
      ensures up ==> Short(parent.parent, parent) && Span(parent) > old(Span(elm))
      ensures up ==> parent.bh == old(BlackHeight(elm)) + (if parent.color == Black then 1 else 0)
      ensures !up ==> Balanced() && BlackHeight(elm) == old(BlackHeight(elm))
    {
      SiblingRight(parent, elm);
      var tmp := parent.left;
      if tmp.color == Red {
        RemoveRedSiblingRight(parent, elm, tmp);
        tmp := parent.left;
      }
      assert Span(elm) == old(Span(elm)) && Span(parent) > Span(elm) by {
        assert Linked(parent);
      }
      if (tmp.right == null || tmp.right.color == Black) && (tmp.left == null || tmp.left.color == Black) {
        RemoveBlackNephewsRight(parent, elm, tmp);
        return true;
      }
      if tmp.left == null || tmp.left.color == Black {
        RemoveNearRedRight(parent, elm, tmp);
        tmp := parent.left;
      }
      RemoveFarRedRight(parent, elm, tmp);
      return false;
    }

    // One round of RB_INSERT_COLOR with the parent a left child.
    method InsertRoundLeft(elm: Node, parent: Node, gparent: Node) returns (next: Node)
      requires InsertInv(elm) && Generations(elm, parent, gparent) && gparent.left == parent
      modifies nodes`left, nodes`right, nodes`parent, nodes`lo, nodes`hi, nodes`color, nodes`bh, `root
      ensures InsertInv(next)
      ensures next.bh + (if IsRed(next.parent) then 0 else 1) >= old(elm.bh) + 1
      ensures IsRed(next.parent) ==> Span(next) > old(Span(elm))
    {
      hide Shape;
      var tmp := gparent.right;
      if tmp != null && tmp.color == Red {
        InsertRecolour(elm, parent, tmp, gparent);
        return gparent;
      }
      var p, e := parent, elm;
      if p.right == e {
        InsertInnerLeft(e, p, gparent);
        p, e := e, p;
      }
      InsertOuterLeft(e, p, gparent);
      return e;
    }

    // One round of RB_INSERT_COLOR with the parent a right child.
    method InsertRoundRight(elm: Node, parent: Node, gparent: Node) returns (next: Node)
      requires InsertInv(elm) && Generations(elm, parent, gparent) && gparent.right == parent
      modifies nodes`right, nodes`left, nodes`parent, nodes`lo, nodes`hi, nodes`color, nodes`bh, `root
      ensures InsertInv(next)
      ensures next.bh + (if IsRed(next.parent) then 0 else 1) >= old(elm.bh) + 1
      ensures IsRed(next.parent) ==> Span(next) > old(Span(elm))
    {
      hide Shape;
      var tmp := gparent.left;
      if tmp != null && tmp.color == Red {
        InsertRecolour(elm, parent, tmp, gparent);
        return gparent;
      }
      var p, e := parent, elm;
      if p.left == e {
        InsertInnerRight(e, p, gparent);
        p, e := e, p;
      }
      InsertOuterRight(e, p, gparent);
      return e;
    }

    ghost predicate RedUncleCase(elm: Node, parent: Node, uncle: Node, gparent: Node)
      reads this, nodes
    {
      && InsertInv(elm) && parent in nodes && gparent in nodes && uncle in nodes
      && elm.parent == parent && parent.parent == gparent && IsRed(parent) && IsRed(uncle)
      && ((gparent.left == parent && gparent.right == uncle) || (gparent.right == parent && gparent.left == uncle))
    }

    method SwapColours(parent: Node, uncle: Node, gparent: Node)
      requires parent in nodes && gparent in nodes && uncle in nodes
      requires parent != uncle && parent != gparent && uncle != gparent
      modifies nodes`color, nodes`bh
      ensures forall n | n in nodes ::
        && n.color == (if n == parent || n == uncle then Black else if n == gparent then Red else old(n.color))
        && n.bh == old(n.bh) + (if n == parent || n == uncle then 1 else 0)
    {
      uncle.color := Black;
      parent.color := Black;
      gparent.color := Red;
      uncle.bh := uncle.bh + 1;
      parent.bh := parent.bh + 1;
    }

    // Red uncle: the two reds move up to the grandparent.
    method InsertRecolour(elm: Node, parent: Node, uncle: Node, gparent: Node)
      requires RedUncleCase(elm, parent, uncle, gparent)
      modifies nodes`color, nodes`bh
      ensures InsertInv(gparent) && gparent.bh == old(elm.bh) + 1
      ensures elm.hi - elm.lo < gparent.hi - gparent.lo
    {
      assert parent != uncle && gparent != parent && gparent != uncle && elm.hi - elm.lo < gparent.hi - gparent.lo by {
        assert Linked(elm) && Linked(parent) && Linked(gparent) && Linked(uncle);
      }
      assert gparent.bh == elm.bh + 1 by {
        assert Linked(elm) && Linked(parent) && Linked(gparent);
        assert BhOk(parent) && BhOk(gparent) && RedOk(parent);
      }
      SwapColours(parent, uncle, gparent);
      RedUncleDone((elm, parent, uncle, gparent));
    }

    twostate lemma RedUncleDone(c: (Node, Node, Node, Node))
      requires var (elm, parent, uncle, gparent) := c; old(RedUncleCase(elm, parent, uncle, gparent))
      requires old(Shape()) && Shape() && nodes == old(nodes)
      requires forall n | n in old(nodes) ::
        && n.left == old(n.left) && n.right == old(n.right) && n.parent == old(n.parent)
        && n.color == (if n == c.1 || n == c.2 then Black else if n == c.3 then Red else old(n.color))
        && n.bh == old(n.bh) + (if n == c.1 || n == c.2 then 1 else 0)
      requires root == old(root)
      ensures InsertInv(c.3)
    {
      var (elm, parent, uncle, gparent) := c;
      assert old(Linked(elm)) && old(Linked(parent)) && old(Linked(gparent)) && old(Linked(uncle));
      assert old(BhOk(parent)) && old(BhOk(gparent)) && old(BhOk(uncle)) && old(RedOk(parent));
      forall n {:trigger BhOk(n)} | n in nodes
        ensures BhOk(n)
      {
        assert old(Linked(n)) && old(BhOk(n));
      }
      forall n {:trigger RedOk(n)} | n in nodes && n != gparent
        ensures RedOk(n)
      {
        assert old(Linked(n)) && old(n != elm ==> RedOk(n));
      }
    }

    // RB_INSERT_COLOR, with the number of its rounds
    method InsertColor(start: Node) returns (ghost rounds: nat)
      requires InsertInv(start) && Sorted()
      modifies nodes`left, nodes`right, nodes`parent, nodes`lo, nodes`hi, nodes`color, nodes`bh, `root
      ensures Valid() && Pow2(rounds) <= 2 * (|s| + 1)
    {
      hide Shape;
      var elm: Node := start;
      rounds := 0;
      while elm.parent != null && elm.parent.color == Red
        invariant InsertInv(elm)
        invariant rounds <= elm.bh + (if IsRed(elm.parent) then 0 else 1)
        decreases IsRed(elm.parent), |s| - Span(elm)
      {
        var parent := elm.parent;
        rounds := rounds + 1;
        GrandparentOf(elm);
        var gparent := parent.parent;
        if parent == gparent.left {
          elm := InsertRoundLeft(elm, parent, gparent);
        } else {
          elm := InsertRoundRight(elm, parent, gparent);
        }
        InTheTree(elm);
      }
      ghost var level := elm.bh;
      RootIsShort(elm);
      BlackenShort(null, root);
      FewRounds(elm, level, rounds);
    }

    // A red parent is not the root.
    lemma GrandparentOf(elm: Node)
      requires InsertInv(elm) && IsRed(elm.parent)
      ensures Generations(elm, elm.parent, elm.parent.parent)
    {
      assert Linked(elm) && Linked(elm.parent);
      assert elm.parent != root && elm.parent.parent != null;
      assert Linked(elm.parent.parent);
    }

    lemma InTheTree(elm: Node)
      requires Shape() && elm in nodes
      ensures 0 < Span(elm) <= |s|
    {
      assert Linked(elm);
    }

    lemma RootIsShort(elm: Node)
      requires InsertInv(elm) && !IsRed(elm.parent)
      ensures Short(null, root) && (IsRed(root) || root == null || root.color == Black)
    {
      assert Linked(elm);
    }

    // Levels below a node of a valid tree are at most lg(n + 1).
    lemma FewRounds(elm: Node?, level: nat, rounds: nat)
      requires Valid() && (elm == null || elm in nodes)
      requires level <= BlackHeight(elm) && rounds <= level + 1
      ensures Pow2(rounds) <= 2 * (|s| + 1)
    {
      BlackHeightWeight(elm);
      assert elm != null ==> Linked(elm);
      Pow2Monotone(level, BlackHeight(elm));
      Pow2Monotone(rounds, level + 1);
    }

    // RB_REMOVE_COLOR, with the number of its rounds
    method RemoveColor(start: Node?, child: Node?) returns (ghost rounds: nat)
      requires Short(start, child) && Sorted()
      modifies nodes`left, nodes`right, nodes`parent, nodes`lo, nodes`hi, nodes`color, nodes`bh, `root
      ensures Valid() && Pow2(rounds) <= 2 * (|s| + 1)
    {
      var parent, elm := start, child;
      ghost var low := child;
      rounds := 0;
      assert parent != null ==> Linked(parent);
      while (elm == null || elm.color == Black) && elm != root
        invariant Short(parent, elm) && (elm == null || elm in nodes) && low == elm
        invariant rounds <= BlackHeight(elm) + (if IsRed(elm) then 1 else 0)
        decreases |s| - Span(elm)
      {
        var up;
        rounds := rounds + 1;
        if parent.left == elm {
          up := RemoveRoundLeft(parent, elm);
        } else {
          up := RemoveRoundRight(parent, elm);
        }
        if !up {
          elm := root;
          parent := null;
          break;
        }
        elm := parent;
        low := elm;
        assert Linked(elm);
        parent := elm.parent;
      }
      ghost var level := BlackHeight(low);
      BlackenShort(parent, elm);
      FewRounds(low, level, rounds);
    }

    // Blackening elm makes up for the missing black node.
    method BlackenShort(parent: Node?, elm: Node?)
      requires Short(parent, elm) && Sorted() && (IsRed(elm) || elm == root)
      modifies nodes`color, nodes`bh
      ensures Valid() && forall n | n in nodes :: n.bh >= old(n.bh)
    {
      assert parent != null ==> Linked(parent);
      assert elm != null ==> elm in nodes;
      if elm != null {
        if IsRed(elm) {
          elm.bh := elm.bh + 1;
        }
        elm.color := Black;
      }
      BlackenShortDone((parent, elm));
    }

    twostate lemma BlackenShortDone(c: (Node?, Node?))
      requires var (parent, elm) := c; old(Short(parent, elm) && (IsRed(elm) || elm == root))
      requires Shape() && root == old(root) && nodes == old(nodes)
      requires forall n | n in old(nodes) ::
        && n.left == old(n.left) && n.right == old(n.right) && n.parent == old(n.parent)
        && n.color == (if n == c.1 then Black else old(n.color))
        && n.bh == old(n.bh) + (if n == c.1 && old(n.color) == Red then 1 else 0)
      ensures Balanced()
    {
      var (parent, elm) := c;
      assert parent != null ==> Linked(parent);
      assert elm != null ==> Linked(elm);
      forall n {:trigger BhOk(n)} | n in nodes
        ensures BhOk(n)
      {
        assert Linked(n) && old(n != parent ==> BhOk(n));
      }
      forall n {:trigger RedOk(n)} | n in nodes
        ensures RedOk(n)
      {
        assert Linked(n) && old(n != elm && n.parent != elm ==> RedOk(n));
      }
    }

    // The index fields at or beyond the given bounds move by d.
    ghost method Shift(p: int, l: int, h: int, d: int)
      modifies nodes`pos, nodes`lo, nodes`hi
      ensures Shifted(p, l, h, d)
    {
      forall n | n in nodes {
        n.pos := if n.pos >= p then n.pos + d else n.pos;
      }
      forall n | n in nodes {
        n.lo := if n.lo >= l then n.lo + d else n.lo;
      }
      forall n | n in nodes {
        n.hi := if n.hi >= h then n.hi + d else n.hi;
      }
    }

    twostate predicate Shifted(p: int, l: int, h: int, d: int)
      reads this, nodes
    {
      nodes == old(nodes) && forall n | n in old(nodes) ::
        && n.pos == old(n.pos) + (if old(n.pos) >= p then d else 0)
        && n.lo == old(n.lo) + (if old(n.lo) >= l then d else 0)
        && n.hi == old(n.hi) + (if old(n.hi) >= h then d else 0)
    }

    // Take y, which has at most the one child, out of the links around it.
    method Unlink(y: Node, child: Node?)
      requires y in nodes && (child == null || child in nodes) && (y.parent == null || y.parent in nodes)
      requires child != y && y.parent != y && (child != null ==> child != y.parent)
      requires y.parent != null ==> y.parent.left == y || y.parent.right == y
      modifies nodes`left, nodes`right, nodes`parent, `root
      ensures Unlinked(y, child)
    {
      var parent := y.parent;
      if child != null {
        child.parent := parent;
      }
      if parent != null {
        if parent.left == y {
          parent.left := child;
        } else {
          parent.right := child;
        }
      } else {
        root := child;
      }
    }

    twostate predicate Unlinked(y: Node, child: Node?)
      reads this, nodes, y
    {
      && nodes == old(nodes)
      && (forall n | n in old(nodes) ::
          && n.parent == (if n == child then old(y.parent) else old(n.parent))
          && n.left == (if n == old(y.parent) && old(n.left) == y then child else old(n.left))
          && n.right == (if n == old(y.parent) && old(n.left) != y then child else old(n.right)))
      && root == (if old(y.parent) == null then child else old(root))
    }

    ghost predicate Removable(y: Node, child: Node?)
      reads y
    {
      (y.left == null && child == y.right) || (y.right == null && child == y.left)
    }

    // Unlink y and close the gap it leaves in the sequence.
    method Detach(y: Node, child: Node?)
      requires Shape() && y in nodes && Removable(y, child)
      modifies nodes`left, nodes`right, nodes`parent, nodes`pos, nodes`lo, nodes`hi, this
      ensures nodes == old(nodes) - {y} && s == old(Without(s, y.pos))
      ensures Detached(y, child)
      ensures Shape()
    {
      ghost var q := y.pos;
      assert child != y && y.parent != y && (child != null ==> child in nodes && child != y.parent) && LinkedUp(y) by {
        assert Linked(y);
        assert y.parent != null ==> Linked(y.parent);
        assert child != null ==> Linked(child);
      }
      Unlink(y, child);
      hide Shape, Linked, LinkedUp, Without;
      Shift(q + 1, q + 1, q + 1, -1);
      s := Without(s, q);
      nodes := nodes - {y};
      assert Detached(y, child);
      hide Detached;
      DetachedShape((y, child));
    }

    twostate predicate Detached(y: Node, child: Node?)
      reads this, nodes, y
    {
      && nodes == old(nodes) - {y} && s == old(Without(s, y.pos))
      && root == (if old(y.parent) == null then child else old(root))
      && forall n | n in old(nodes) ::
          && n.parent == (if n == child then old(y.parent) else old(n.parent))
          && n.left == (if n == old(y.parent) && old(n.left) == y then child else old(n.left))
          && n.right == (if n == old(y.parent) && old(n.left) != y then child else old(n.right))
          && n.pos == old(n.pos) + (if old(n.pos) > old(y.pos) then -1 else 0)
          && n.lo == old(n.lo) + (if old(n.lo) > old(y.pos) then -1 else 0)
          && n.hi == old(n.hi) + (if old(n.hi) > old(y.pos) then -1 else 0)
    }

    twostate lemma DetachedShape(c: (Node, Node?))
      requires var (y, child) := c; old(Shape() && y in nodes && Removable(y, child))
      requires Detached(c.0, c.1)
      ensures Shape()
    {
      var (y, child) := c;
      assert old(Linked(y));
      assert child != null ==> old(Linked(child));
      forall n {:trigger Linked(n)} | n in nodes
        ensures Linked(n)
      {
        DetachedDown((y, child, n));
        DetachedUp((y, child, n));
      }
    }

    twostate lemma DetachedDown(c: (Node, Node?, Node))
      requires var (y, child, n) := c; old(Shape() && y in nodes && Removable(y, child)) && n in old(nodes) && n != y
      requires Detached(c.0, c.1)
      ensures LinkedDown(c.2)
    {
      var (y, child, n) := c;
      DetachedDownLeft(c);
      DetachedDownRight(c);
      hide LinkedDownLeft, LinkedDownRight;
      assert old(Linked(y)) && old(Linked(n));
    }

    twostate lemma DetachedDownLeft(c: (Node, Node?, Node))
      requires var (y, child, n) := c; old(Shape() && y in nodes && Removable(y, child)) && n in old(nodes) && n != y
      requires Detached(c.0, c.1)
      ensures LinkedDownLeft(c.2)
    {
      var (y, child, n) := c;
      assert old(Linked(y)) && old(Linked(n));
      assert child != null ==> old(Linked(child));
    }

    twostate lemma DetachedDownRight(c: (Node, Node?, Node))
      requires var (y, child, n) := c; old(Shape() && y in nodes && Removable(y, child)) && n in old(nodes) && n != y
      requires Detached(c.0, c.1)
      ensures LinkedDownRight(c.2)
    {
      var (y, child, n) := c;
      assert old(Linked(y)) && old(Linked(n));
      assert child != null ==> old(Linked(child));
    }

    twostate lemma DetachedUp(c: (Node, Node?, Node))
      requires var (y, child, n) := c; old(Shape() && y in nodes && Removable(y, child)) && n in old(nodes) && n != y
      requires Detached(c.0, c.1)
      ensures LinkedUp(c.2)
    {
      var (y, child, n) := c;
      assert old(Linked(y)) && old(Linked(n));
      assert old(n.parent) != null ==> old(Linked(n.parent));
    }

    // Taking a black node away leaves its child short; a red one leaves no trace.
    twostate lemma DetachedColour(c: (Node, Node?))
      requires var (y, child) := c; old(Balanced() && y in nodes && Removable(y, child))
      requires Detached(c.0, c.1) && Shape()
      requires forall n | n in old(nodes) :: n.color == old(n.color) && n.bh == old(n.bh)
      ensures if c.0.color == Black then Short(old(c.0.parent), c.1) else Balanced()
    {
      var (y, child) := c;
      DetachedBlackLevels((y, child));
      DetachedShortSide((y, child));
      DetachedReds((y, child));
      assert old(Linked(y));
    }

    twostate lemma DetachedBlackLevels(c: (Node, Node?))
      requires var (y, child) := c; old(Balanced() && y in nodes && Removable(y, child))
      requires Detached(c.0, c.1) && Shape()
      requires forall n | n in old(nodes) :: n.color == old(n.color) && n.bh == old(n.bh)
      ensures forall n | n in nodes && (n != old(c.0.parent) || c.0.color == Red) :: BhOk(n)
    {
      var (y, child) := c;
      var parent := old(y.parent);
      assert old(Linked(y)) && old(BhOk(y));
      assert parent != null ==> old(Linked(parent)) && old(BhOk(parent));
      forall n {:trigger BhOk(n)} | n in nodes && (n != parent || y.color == Red)
        ensures BhOk(n)
      {
        assert old(Linked(n)) && old(BhOk(n));
      }
    }

    twostate lemma DetachedShortSide(c: (Node, Node?))
      requires var (y, child) := c; old(Balanced() && y in nodes && Removable(y, child))
      requires Detached(c.0, c.1) && Shape()
      requires forall n | n in old(nodes) :: n.color == old(n.color) && n.bh == old(n.bh)
      ensures old(c.0.parent) in nodes || old(c.0.parent) == null
      ensures old(c.0.parent) != null && c.0.color == Black ==> ShortSide(old(c.0.parent), c.1)
    {
      var (y, child) := c;
      var parent := old(y.parent);
      assert old(Linked(y)) && old(BhOk(y));
      assert parent != null ==> old(Linked(parent)) && old(BhOk(parent));
    }

    twostate lemma DetachedReds(c: (Node, Node?))
      requires var (y, child) := c; old(Balanced() && y in nodes && Removable(y, child))
      requires Detached(c.0, c.1) && Shape()
      requires forall n | n in old(nodes) :: n.color == old(n.color) && n.bh == old(n.bh)
      ensures forall n | n in nodes && (n != c.1 || c.0.color == Red) :: RedOk(n)
    {
      var (y, child) := c;
      assert old(Linked(y)) && old(RedOk(y)) && old(BhOk(y));
      assert child != null ==> old(Linked(child)) && old(BhOk(child)) && old(RedOk(child));
      forall n {:trigger RedOk(n)} | n in nodes && (n != child || y.color == Red)
        ensures RedOk(n)
      {
        assert old(Linked(n)) && old(RedOk(n));
      }
    }

    // Put y, a node outside the tree, into the place of o.
    method Substitute(o: Node, y: Node)
      requires Shape() && o in nodes && y !in nodes && o.left != null
      modifies nodes, y, this
      ensures Substituted(o, y)
      ensures Shape()
    {
      assert o.left in nodes && o.left != o && o.right != o && o.parent != o by {
        assert Linked(o);
        assert o.parent != null ==> Linked(o.parent);
      }
      assert (o.right == null || o.right in nodes) && LinkedUp(o) by {
        assert Linked(o);
        assert o.parent != null ==> Linked(o.parent);
      }
      assert 0 <= o.pos < |s| by { assert Linked(o); }
      CopyField(o, y);
      Rehang(o, y);
      s := s[o.pos := y];
      nodes := nodes - {o} + {y};
      SubstitutedShape((o, y));
    }

    // (elm)->field = (old)->field
    method CopyField(o: Node, y: Node)
      requires o != y
      modifies y
      ensures y.left == o.left && y.right == o.right && y.parent == o.parent && y.color == o.color
      ensures y.bh == o.bh && y.pos == o.pos && y.lo == o.lo && y.hi == o.hi
    {
      y.left := o.left;
      y.right := o.right;
      y.parent := o.parent;
      y.color := o.color;
      y.bh := o.bh;
      y.pos := o.pos;
      y.lo := o.lo;
      y.hi := o.hi;
    }

    method Rehang(o: Node, y: Node)
      requires o in nodes && y !in nodes
      requires o.left != o && o.right != o && o.parent != o
      requires o.left in nodes
      requires o.right == null || o.right in nodes
      requires o.parent == null || o.parent in nodes
      modifies nodes`left, nodes`right, nodes`parent, `root
      ensures forall n | n in nodes ::
        && n.parent == (if n == old(o.left) || n == old(o.right) then y else old(n.parent))
        && n.left == (if n == old(o.parent) && old(n.left) == o then y else old(n.left))
        && n.right == (if n == old(o.parent) && old(n.left) != o then y else old(n.right))
      ensures root == (if old(o.parent) == null then y else old(root))
    {
      if o.parent != null {
        if o.parent.left == o {
          o.parent.left := y;
        } else {
          o.parent.right := y;
        }
      } else {
        root := y;
      }
      o.left.parent := y;
      if o.right != null {
        o.right.parent := y;
      }
    }

    twostate predicate Substituted(o: Node, y: Node)
      reads this, nodes, o, y
    {
      && nodes == old(nodes) - {o} + {y}
      && 0 <= old(o.pos) < |old(s)| && s == old(s)[old(o.pos) := y]
      && root == (if old(o.parent) == null then y else old(root))
      && y.left == old(o.left) && y.right == old(o.right) && y.parent == old(o.parent) && y.color == old(o.color)
      && y.bh == old(o.bh) && y.pos == old(o.pos) && y.lo == old(o.lo) && y.hi == old(o.hi)
      && forall n | n in old(nodes) && n != o ::
        && n.parent == (if n == old(o.left) || n == old(o.right) then y else old(n.parent))
        && n.left == (if n == old(o.parent) && old(n.left) == o then y else old(n.left))
        && n.right == (if n == old(o.parent) && old(n.left) != o then y else old(n.right))
        && n.color == old(n.color) && n.bh == old(n.bh) && n.pos == old(n.pos) && n.lo == old(n.lo) && n.hi == old(n.hi)
    }

    twostate lemma SubstitutedShape(c: (Node, Node))
      requires var (o, y) := c; old(Shape()) && o in old(nodes) && y !in old(nodes)
      requires Substituted(c.0, c.1)
      ensures Shape()
    {
      var (o, y) := c;
      assert old(Linked(o));
      forall n {:trigger Linked(n)} | n in nodes
        ensures Linked(n)
      {
        assert n != y ==> old(Linked(n));
      }
    }

    // y takes over the colour and the black level, so nothing above or below notices.
    twostate lemma SubstitutedColour(c: (Node, Node))
      requires var (o, y) := c; old(Shape()) && o in old(nodes) && y !in old(nodes)
      requires Substituted(c.0, c.1) && Shape()
      ensures forall n | n in nodes && n != c.1 && old(BhOk(n)) :: BhOk(n)
      ensures old(BhOk(c.0)) ==> BhOk(c.1)
      ensures forall n | n in nodes && n != c.1 && old(RedOk(n)) :: RedOk(n)
      ensures old(RedOk(c.0)) ==> RedOk(c.1)
    {
      var (o, y) := c;
      assert old(Linked(o));
      forall n {:trigger BhOk(n)} | n in nodes && n != y && old(BhOk(n))
        ensures BhOk(n)
      {
        assert old(Linked(n));
      }
      forall n {:trigger RedOk(n)} | n in nodes && n != y && old(RedOk(n))
        ensures RedOk(n)
      {
        assert old(Linked(n));
      }
    }

    twostate lemma SubstitutedBalanced(c: (Node, Node))
      requires var (o, y) := c; old(Balanced()) && o in old(nodes) && y !in old(nodes)
      requires Substituted(c.0, c.1) && Shape()
      ensures Balanced()
    {
      var (o, y) := c;
      SubstitutedColour(c);
      assert old(Linked(o)) && old(BhOk(o)) && old(RedOk(o));
      forall n {:trigger BhOk(n)} | n in nodes
        ensures BhOk(n)
      {
        assert n != y ==> old(BhOk(n));
      }
      forall n {:trigger RedOk(n)} | n in nodes
        ensures RedOk(n)
      {
        assert n != y ==> old(RedOk(n));
      }
    }

    twostate lemma SubstitutedShort(c: (Node, Node, Node, Node?))
      requires var (o, y, parent, child) := c;
        && old(Short(parent, child)) && o in old(nodes) && y !in old(nodes) && parent in old(nodes) && child != o
        && child != y
      requires Substituted(c.0, c.1) && Shape()
      ensures Short(if c.2 == c.0 then c.1 else c.2, c.3)
    {
      var (o, y, parent, child) := c;
      SubstitutedColour((o, y));
      SubstitutedSide(c);
      var parent' := if parent == o then y else parent;
      assert old(Linked(o));
      assert o != parent ==> old(BhOk(o));
      forall n {:trigger BhOk(n)} | n in nodes && n != parent'
        ensures BhOk(n)
      {
        assert n != y ==> old(BhOk(n));
      }
      forall n {:trigger RedOk(n)} | n in nodes && n != child && n.parent != child
        ensures RedOk(n)
      {
        assert if n == y then old(RedOk(o)) else old(n.parent != child ==> RedOk(n));
      }
    }

    twostate lemma SubstitutedSide(c: (Node, Node, Node, Node?))
      requires var (o, y, parent, child) := c;
        && old(Short(parent, child)) && o in old(nodes) && y !in old(nodes) && parent in old(nodes) && child != o
        && child != y
      requires Substituted(c.0, c.1) && Shape()
      ensures var parent' := if c.2 == c.0 then c.1 else c.2; parent' in nodes && ShortSide(parent', c.3)
    {
      var (o, y, parent, child) := c;
      assert old(Linked(o)) && old(Linked(parent));
    }

    // The colour-independent half of a removal, with what it leaves for the fix-up.
    method TakeOut(y: Node, child: Node?)
      requires Balanced() && Sorted() && y in nodes && Removable(y, child)
      modifies nodes`left, nodes`right, nodes`parent, nodes`pos, nodes`lo, nodes`hi, this
      ensures Detached(y, child) && Sorted() && 0 <= old(y.pos) < |old(s)| && old(s)[old(y.pos)] == y
      ensures y.parent == old(y.parent) && y.left == old(y.left)
      ensures if y.color == Black then Short(y.parent, child) else Balanced()
    {
      assert 0 <= y.pos < |s| && s[y.pos] == y && y.parent != y && (child == null || child != y) by {
        assert Linked(y);
        assert child != null ==> Linked(child);
      }
      OrderedWithout(s, y.pos);
      Detach(y, child);
      DetachedColour((y, child));
    }

    // RB_REMOVE, with the steps to the successor and the fix-up's rounds
    method Remove(victim: Node) returns (r: Node, ghost steps: nat, ghost rounds: nat)
      requires Valid() && victim in nodes
      modifies this, nodes
      ensures Valid()
      ensures r == victim && nodes == old(nodes) - {victim}
      ensures 0 <= old(victim.pos) < |old(s)| && old(s)[old(victim.pos)] == victim
      ensures s == Without(old(s), old(victim.pos))
      ensures Pow2(steps) <= (|old(s)| + 1) * (|old(s)| + 1) && Pow2(rounds) <= 2 * (|s| + 1)
    {
      steps, rounds := 0, 0;
      var elm: Node := victim;
      var child: Node?;
      if elm.left == null {
        child := elm.right;
      } else if elm.right == null {
        child := elm.left;
      } else {
        elm, steps := Successor(elm);
        rounds := RemoveSpliced(victim, elm);
        return victim, steps, rounds;
      }
      var parent, color := elm.parent, elm.color;
      TakeOut(elm, child);
      if color == Black {
        rounds := RemoveColor(parent, child);
      }
      return victim, steps, rounds;
    }

    // The leftmost node of the right subtree.
    method Successor(victim: Node) returns (elm: Node, ghost steps: nat)
      requires Valid() && victim in nodes && victim.right != null
      ensures elm in nodes && elm.left == null && elm.pos == victim.pos + 1 && elm != victim
      ensures Pow2(steps) <= (|s| + 1) * (|s| + 1)
    {
      assert Linked(victim);
      elm := victim.right;
      assert Linked(elm);
      HeightBelow(elm);
      HeightBound();
      steps := 1;
      var left := elm.left;
      while left != null
        invariant elm in nodes && Linked(elm) && elm.lo == victim.pos + 1 && left == elm.left
        invariant steps + Height(elm) <= Height(root) + 1
        decreases elm.hi
      {
        steps := steps + 1;
        elm := left;
        assert Linked(elm);
        left := elm.left;
      }
      Pow2Monotone(steps, Height(root));
    }

    // Two children: the successor node itself moves into the victim's place.
    method RemoveSpliced(victim: Node, elm: Node) returns (ghost rounds: nat)
      requires Valid() && victim in nodes && elm in nodes && victim.left != null
      requires elm.left == null && elm.pos == victim.pos + 1 && victim.right != null
      modifies this, nodes
      ensures Valid()
      ensures nodes == old(nodes) - {victim}
      ensures 0 <= old(victim.pos) < |old(s)| && old(s)[old(victim.pos)] == victim
      ensures s == Without(old(s), old(victim.pos))
      ensures Pow2(rounds) <= 2 * (|s| + 1)
    {
      rounds := 0;
      var parent, color, child := Splice(victim, elm);
      if color == Black {
        rounds := RemoveColor(parent, child);
      }
    }

    method Splice(victim: Node, elm: Node) returns (parent: Node?, color: Color, child: Node?)
      requires Valid() && victim in nodes && elm in nodes && victim.left != null
      requires elm.left == null && elm.pos == victim.pos + 1 && victim.right != null
      modifies this, nodes
      ensures Sorted() && nodes == old(nodes) - {victim}
      ensures if color == Black then Short(parent, child) else Balanced()
      ensures 0 <= old(victim.pos) < |old(s)| && old(s)[old(victim.pos)] == victim
      ensures s == Without(old(s), old(victim.pos))
    {
      SpliceFacts(victim, elm);
      ghost var k, t, kept := victim.pos, s, nodes - {elm};
      OrderedWithout(t, k);
      WithoutNext(t, k);
      ghost var target := Without(t, k);
      assert Without(t, k + 1)[k := elm] == target;
      child := elm.right;
      color := elm.color;
      var up: Node := elm.parent;
      TakeOut(elm, child);
      assert s == Without(t, k + 1) && nodes == kept;
      assert victim in nodes && victim.pos == k && victim.left != null;
      parent := Transplant(victim, elm, up, child, color);
      assert s == target;
      assert nodes == old(nodes) - {victim};
    }

    lemma SpliceFacts(victim: Node, elm: Node)
      requires Shape() && victim in nodes && elm in nodes && victim.left != null
      requires elm.left == null && elm.pos == victim.pos + 1
      ensures 0 <= victim.pos && elm.pos < |s| && s[victim.pos] == victim && s[elm.pos] == elm
      ensures victim.parent != elm && victim.left != elm
      ensures elm.right != null ==> elm.right != victim && elm.right != elm
      ensures elm.parent in nodes && elm.parent != elm
    {
      assert Linked(victim) && Linked(elm);
      assert elm.right != null ==> Linked(elm.right);
    }

    // Let elm, just taken out from under up, replace victim.
    method Transplant(victim: Node, elm: Node, up: Node, child: Node?, color: Color) returns (parent: Node)
      requires victim in nodes && elm !in nodes && victim.left != null && up in nodes && elm.parent == up
      requires child != victim && child != elm
      requires if color == Black then Short(up, child) else Balanced()
      modifies this, nodes, elm
      ensures nodes == old(nodes) - {victim} + {elm}
      ensures 0 <= old(victim.pos) < |old(s)| && s == old(s)[old(victim.pos) := elm]
      ensures if color == Black then Short(parent, child) else Balanced()
    {
      parent := up;
      if elm.parent == victim {
        parent := elm;
      }
      Substitute(victim, elm);
      if color == Black {
        SubstitutedShort((victim, elm, up, child));
      } else {
        SubstitutedBalanced((victim, elm));
      }
    }

    // The in-order walk of the subtree at n, by its links alone.
    ghost function InOrder(n: Node?): seq<Node>
      requires Shape() && (n == null || n in nodes)
      reads this, nodes
      decreases Span(n)
    {
      if n == null then [] else
        assert Linked(n);
        InOrder(n.left) + [n] + InOrder(n.right)
    }

    lemma {:induction false} InOrderOf(n: Node)
      requires Shape() && n in nodes
      ensures 0 <= n.lo <= n.hi <= |s| && InOrder(n) == s[n.lo..n.hi]
      decreases Span(n)
    {
      assert LinkedDown(n) by {
        assert Linked(n);
      }
      hide Shape, LinkedUp;
      if n.left != null {
        InOrderOf(n.left);
      }
      if n.right != null {
        InOrderOf(n.right);
      }
      SplitAt(s, n.lo, n.pos, n.hi);
      assert n.left == null ==> s[n.lo..n.pos] == [];
      assert n.right == null ==> s[n.pos + 1..n.hi] == [];
    }

    // The sequence s is the in-order walk from the root.
    lemma InOrderIsSequence()
      requires Shape()
      ensures InOrder(root) == s
    {
      if root != null {
        InOrderOf(root);
      }
    }

    // The number of nodes on the longest path down from n.
    ghost function Height(n: Node?): nat
      requires Shape() && (n == null || n in nodes)
      reads this, nodes
      decreases Span(n)
    {
      if n == null then 0 else
        assert Linked(n);
        var l, r := Height(n.left), Height(n.right);
        1 + if l < r then r else l
    }

    lemma {:induction false} HeightAtMostTwiceBlack(n: Node?)
      requires Valid() && (n == null || n in nodes)
      ensures Height(n) <= 2 * BlackHeight(n) + (if IsRed(n) then 1 else 0)
      decreases Span(n)
    {
      if n != null {
        assert Linked(n) && BhOk(n);
        assert n.left != null ==> RedOk(n.left);
        assert n.right != null ==> RedOk(n.right);
        HeightAtMostTwiceBlack(n.left);
        HeightAtMostTwiceBlack(n.right);
      }
    }

    lemma {:induction false} BlackHeightWeight(n: Node?)
      requires Valid() && (n == null || n in nodes)
      ensures Pow2(BlackHeight(n)) <= Span(n) + 1
      decreases Span(n)
    {
      if n != null {
        assert Linked(n) && BhOk(n);
        BlackHeightWeight(n.left);
        BlackHeightWeight(n.right);
      }
    }

    // The maximum height of a red-black tree of n nodes is 2 lg(n + 1).
    lemma HeightBound()
      requires Valid()
      ensures Pow2(Height(root)) <= (|s| + 1) * (|s| + 1)
    {
      var b := BlackHeight(root);
      HeightAtMostTwiceBlack(root);
      BlackHeightWeight(root);
      Pow2Monotone(Height(root), 2 * b);
      Pow2Product(b, b);
      SquareMonotone(Pow2(b), |s| + 1);
    }

    // No subtree is higher than the tree.
    lemma {:induction false} HeightBelow(n: Node)
      requires Shape() && n in nodes
      ensures Height(n) <= Height(root)
      decreases |s| - Span(n)
    {
      assert Linked(n);
      if n.parent != null {
        assert Linked(n.parent);
        HeightBelow(n.parent);
      }
    }

    // p lists the nodes met on some way from n down to a null link.
    ghost predicate SearchPath(n: Node?, p: seq<Node>)
      reads this, nodes
      requires Shape() && (n == null || n in nodes)
      decreases |p|
    {
      if n == null then p == [] else
        assert Linked(n);
        p != [] && p[0] == n && (SearchPath(n.left, p[1..]) || SearchPath(n.right, p[1..]))
    }

    ghost function Blacks(p: seq<Node>): nat
      reads p
    {
      if p == [] then 0 else (if p[0].color == Black then 1 else 0) + Blacks(p[1..])
    }

    lemma {:induction false} BlacksOnSearchPath(n: Node?, p: seq<Node>)
      requires Valid() && (n == null || n in nodes) && SearchPath(n, p)
      ensures Blacks(p) == BlackHeight(n)
      decreases |p|
    {
      if n != null {
        assert Linked(n) && BhOk(n);
        if SearchPath(n.left, p[1..]) {
          BlacksOnSearchPath(n.left, p[1..]);
        } else {
          BlacksOnSearchPath(n.right, p[1..]);
        }
      }
    }

    // Every search path from the root has the same number of black nodes.
    lemma SearchPathsAgree(p: seq<Node>, q: seq<Node>)
      requires Valid() && SearchPath(root, p) && SearchPath(root, q)
      ensures Blacks(p) == Blacks(q)
    {
      BlacksOnSearchPath(root, p);
      BlacksOnSearchPath(root, q);
    }

    // The search of RB_INSERT, RB_FIND and RB_NFIND: [lo, hi) is where key may still be.
    ghost predicate Bracket(key: int, tmp: Node?, lo: int, hi: int)
      reads this, nodes
    {
      && Shape()
      && 0 <= lo <= hi <= |s|
      && (tmp == null ==> lo == hi)
      && (tmp != null ==> tmp in nodes && tmp.lo == lo && tmp.hi == hi)
      && (forall i | 0 <= i < lo :: s[i].key < key)
      && (forall i | hi <= i < |s| :: key < s[i].key)
    }

    lemma BracketRoot(key: int)
      requires Shape()
      ensures Bracket(key, root, 0, |s|)
    {
    }

    lemma BracketLeft(key: int, tmp: Node)
      requires Bracket(key, tmp, tmp.lo, tmp.hi) && Sorted() && key < tmp.key
      ensures Bracket(key, tmp.left, tmp.lo, tmp.pos) && tmp.pos < tmp.hi
      ensures Height(tmp.left) < Height(tmp)
    {
      assert Linked(tmp);
    }

    lemma BracketRight(key: int, tmp: Node)
      requires Bracket(key, tmp, tmp.lo, tmp.hi) && Sorted() && tmp.key < key
      ensures Bracket(key, tmp.right, tmp.pos + 1, tmp.hi) && tmp.lo <= tmp.pos
      ensures Height(tmp.right) < Height(tmp)
    {
      assert Linked(tmp);
    }

    // RB_FIND, with the number of comparisons it makes.
    method Find(key: int) returns (r: Node?, ghost steps: nat)
      requires Valid()
      ensures r != null ==> r in nodes && r.key == key
      ensures r == null ==> forall i | 0 <= i < |s| :: s[i].key != key
      ensures Pow2(steps) <= (|s| + 1) * (|s| + 1)
    {
      HeightBound();
      var tmp := root;
      steps := 0;
      ghost var lo, hi := 0, |s|;
      while tmp != null
        invariant Bracket(key, tmp, lo, hi)
        invariant steps + Height(tmp) <= Height(root)
        decreases hi - lo
      {
        steps := steps + 1;
        if key < tmp.key {
          BracketLeft(key, tmp);
          hi := tmp.pos;
          tmp := tmp.left;
        } else if key > tmp.key {
          BracketRight(key, tmp);
          lo := tmp.pos + 1;
          tmp := tmp.right;
        } else {
          Pow2Monotone(steps, Height(root));
          return tmp, steps;
        }
      }
      Pow2Monotone(steps, Height(root));
      return null, steps;
    }

    lemma LeastFrom(key: int, r: Node)
      requires Shape() && Sorted() && r in nodes
      requires key == r.key || (key < r.key && Bracket(key, null, r.pos, r.pos))
      ensures 0 <= r.pos < |s| && s[r.pos] == r
      ensures forall i | 0 <= i < r.pos :: s[i].key < key
    {
      assert Linked(r);
    }

    // RB_NFIND
    method NFind(key: int) returns (r: Node?, ghost steps: nat)
      requires Valid()
      ensures r != null ==> 0 <= r.pos < |s| && s[r.pos] == r && key <= r.key
      ensures r != null ==> forall i | 0 <= i < r.pos :: s[i].key < key
      ensures r == null ==> forall i | 0 <= i < |s| :: s[i].key < key
      ensures Pow2(steps) <= (|s| + 1) * (|s| + 1)
    {
      hide Shape, Sorted;
      HeightBound();
      BracketRoot(key);
      var tmp := root;
      r := null;
      steps := 0;
      ghost var lo, hi := 0, |s|;
      while tmp != null
        invariant Bracket(key, tmp, lo, hi)
        invariant steps + Height(tmp) <= Height(root)
        invariant r == null ==> hi == |s|
        invariant r != null ==> r in nodes && key < r.key && hi == r.pos
        decreases hi - lo
      {
        steps := steps + 1;
        if key < tmp.key {
          BracketLeft(key, tmp);
          r := tmp;
          hi := tmp.pos;
          tmp := tmp.left;
        } else if key > tmp.key {
          BracketRight(key, tmp);
          lo := tmp.pos + 1;
          tmp := tmp.right;
        } else {
          LeastFrom(key, tmp);
          Pow2Monotone(steps, Height(root));
          return tmp, steps;
        }
      }
      if r != null {
        LeastFrom(key, r);
      }
      Pow2Monotone(steps, Height(root));
    }

    // RB_SET and the link from the parent.
    method Attach(elm: Node, parent: Node?, left: bool)
      requires elm !in nodes && (parent == null || parent in nodes)
      modifies elm, nodes`left, nodes`right, `root
      ensures elm.left == null && elm.right == null && elm.parent == parent && elm.color == Red
      ensures forall n | n in nodes ::
        && n.left == (if n == parent && left then elm else old(n.left))
        && n.right == (if n == parent && !left then elm else old(n.right))
      ensures root == (if parent == null then elm else old(root))
    {
      elm.parent := parent;
      elm.left := null;
      elm.right := null;
      elm.color := Red;
      if parent != null {
        if left {
          parent.left := elm;
        } else {
          parent.right := elm;
        }
      } else {
        root := elm;
      }
    }

    // parent has a free link on the given side, and elm's key belongs at index k.
    ghost predicate FreeSlot(elm: Node, parent: Node?, left: bool, k: int)
      reads this, nodes
    {
      && 0 <= k <= |s| && elm !in nodes && (parent == null || parent in nodes)
      && (parent == null ==> root == null && k == 0)
      && (parent != null && left ==> parent.left == null && k == parent.pos)
      && (parent != null && !left ==> parent.right == null && k == parent.pos + 1)
    }

    method AddLeaf(elm: Node, parent: Node?, left: bool, ghost k: int)
      requires Shape() && FreeSlot(elm, parent, left, k)
      modifies elm, nodes`left, nodes`right, nodes`pos, nodes`lo, nodes`hi, this
      ensures Added(elm, parent, left, k)
      ensures Shape()
    {
      hide Shape, Added, FreeSlot;
      LinkLeaf(elm, parent, left, k);
      AddedShape((elm, parent, left, k));
    }

    method LinkLeaf(elm: Node, parent: Node?, left: bool, ghost k: int)
      requires FreeSlot(elm, parent, left, k)
      modifies elm, nodes`left, nodes`right, nodes`pos, nodes`lo, nodes`hi, this
      ensures Added(elm, parent, left, k)
    {
      Attach(elm, parent, left);
      Shift(k, if left then k + 1 else k, if left then k + 1 else k, 1);
      Place(elm, k);
      s := With(s, k, elm);
      nodes := nodes + {elm};
    }

    ghost method Place(elm: Node, k: int)
      modifies elm`pos, elm`lo, elm`hi, elm`bh
      ensures elm.pos == k && elm.lo == k && elm.hi == k + 1 && elm.bh == 0
    {
      elm.pos := k;
      elm.lo := k;
      elm.hi := k + 1;
      elm.bh := 0;
    }

    twostate predicate Added(elm: Node, parent: Node?, left: bool, k: int)
      reads this, nodes, elm
    {
      && nodes == old(nodes) + {elm} && s == With(old(s), k, elm)
      && root == (if parent == null then elm else old(root))
      && elm.left == null && elm.right == null && elm.parent == parent && elm.color == Red && elm.bh == 0
      && elm.pos == k && elm.lo == k && elm.hi == k + 1
      && forall n | n in old(nodes) ::
        && n.left == (if n == parent && left then elm else old(n.left))
        && n.right == (if n == parent && !left then elm else old(n.right))
        && n.parent == old(n.parent) && n.color == old(n.color) && n.bh == old(n.bh)
        && n.pos == old(n.pos) + (if old(n.pos) >= k then 1 else 0)
        && n.lo == old(n.lo) + (if old(n.lo) >= (if left then k + 1 else k) then 1 else 0)
        && n.hi == old(n.hi) + (if old(n.hi) >= (if left then k + 1 else k) then 1 else 0)
    }

    twostate lemma AddedShape(c: (Node, Node?, bool, int))
      requires var (elm, parent, left, k) := c; old(Shape() && FreeSlot(elm, parent, left, k))
      requires var (elm, parent, left, k) := c; Added(elm, parent, left, k)
      ensures Shape()
    {
      var (elm, parent, left, k) := c;
      assert parent != null ==> old(Linked(parent));
      assert root != null;
      forall n {:trigger Linked(n)} | n in nodes
        ensures Linked(n)
      {
        if n != elm {
          AddedLinked((elm, parent, left, k, n));
        }
      }
    }

    twostate lemma AddedLinked(c: (Node, Node?, bool, int, Node))
      requires var (elm, parent, left, k, n) := c; old(Shape() && FreeSlot(elm, parent, left, k)) && n in old(nodes)
      requires var (elm, parent, left, k, n) := c; Added(elm, parent, left, k)
      ensures Linked(c.4)
    {
      var (elm, parent, left, k, n) := c;
      assert old(Linked(n));
      assert parent != null ==> old(Linked(parent));
    }

    twostate lemma AddedInv(c: (Node, Node?, bool, int))
      requires var (elm, parent, left, k) := c; old(Balanced() && FreeSlot(elm, parent, left, k))
      requires var (elm, parent, left, k) := c; Added(elm, parent, left, k)
      requires Shape()
      ensures InsertInv(c.0)
    {
      var (elm, parent, left, k) := c;
      assert parent != null ==> old(Linked(parent));
      forall n {:trigger BhOk(n)} | n in nodes
        ensures BhOk(n)
      {
        assert n != elm ==> old(Linked(n)) && old(BhOk(n));
      }
      forall n {:trigger RedOk(n)} | n in nodes && n != elm
        ensures RedOk(n)
      {
        assert old(Linked(n)) && old(RedOk(n));
      }
    }

    // Link the new node at its sorted place and repair the colours.
    method InsertLeaf(elm: Node, parent: Node?, left: bool, ghost k: int) returns (ghost rounds: nat)
      requires Valid() && FreeSlot(elm, parent, left, k) && Bracket(elm.key, null, k, k)
      modifies this, nodes, elm
      ensures Valid() && nodes == old(nodes) + {elm}
      ensures forall n | n in old(nodes) :: n.key != elm.key
      ensures elm.pos == k && s == With(old(s), k, elm)
      ensures Pow2(rounds) <= 2 * (|s| + 1)
    {
      forall n | n in nodes
        ensures n.key != elm.key
      {
        assert Linked(n);
      }
      OrderedWith(s, k, elm);
      AddLeaf(elm, parent, left, k);
      AddedInv((elm, parent, left, k));
      rounds := InsertColor(elm);
    }

    // RB_INSERT, with the number of its comparisons and of the fix-up's rounds
    method Insert(elm: Node) returns (r: Node?, ghost steps: nat, ghost rounds: nat)
      requires Valid() && elm !in nodes
      modifies this, nodes, elm
      ensures Valid()
      ensures r != null ==> unchanged(this) && unchanged(old(nodes)) && unchanged(elm)
      ensures r != null ==> r in nodes && r.key == elm.key
      ensures r == null ==> forall n | n in old(nodes) :: n.key != elm.key
      ensures r == null ==> nodes == old(nodes) + {elm}
      ensures r == null ==> 0 <= elm.pos <= |old(s)| && s == old(s)[..elm.pos] + [elm] + old(s)[elm.pos..]
      ensures Pow2(steps) <= (|old(s)| + 1) * (|old(s)| + 1) && Pow2(rounds) <= 2 * (|s| + 1)
    {
      HeightBound();
      steps, rounds := 0, 0;
      ghost var height := Height(root);
      var tmp := root;
      var parent: Node? := null;
      var comp := 0;
      ghost var lo, hi := 0, |s|;
      while tmp != null
        invariant Bracket(elm.key, tmp, lo, hi)
        invariant steps + Height(tmp) <= height
        invariant parent == null ==> tmp == root
        invariant parent != null ==> parent in nodes && comp != 0
        invariant parent != null && comp < 0 ==> tmp == parent.left && hi == parent.pos
        invariant parent != null && comp > 0 ==> tmp == parent.right && lo == parent.pos + 1
        modifies {}
        decreases hi - lo
      {
        parent := tmp;
        steps := steps + 1;
        assert Linked(tmp);
        if elm.key < parent.key {
          comp := -1;
          BracketLeft(elm.key, tmp);
          hi := tmp.pos;
          tmp := tmp.left;
        } else if elm.key > parent.key {
          comp := 1;
          BracketRight(elm.key, tmp);
          lo := tmp.pos + 1;
          tmp := tmp.right;
        } else {
          Pow2Monotone(steps, height);
          return tmp, steps, rounds;
        }
      }
      assert FreeSlot(elm, parent, comp < 0, lo);
      Pow2Monotone(steps, height);
      rounds := InsertLeaf(elm, parent, comp < 0, lo);
      r := null;
    }

    ghost function At(i: int): Node?
      reads this
    {
      if 0 <= i < |s| then s[i] else null
    }

    // RB_NEXT
    method Next(n: Node) returns (r: Node?)
      requires Shape() && n in nodes
      ensures r == At(n.pos + 1)
      ensures r != null ==> r in nodes && At(r.pos - 1) == n // RB_PREV undoes it
    {
      var elm: Node := n;
      assert Linked(elm);
      if elm.right != null {
        elm := elm.right;
        assert Linked(elm);
        while elm.left != null
          invariant elm in nodes && Linked(elm) && elm.lo == n.pos + 1
          decreases elm.hi
        {
          elm := elm.left;
          assert Linked(elm);
        }
        return elm;
      }
      if elm.parent != null && elm == elm.parent.left {
        assert Linked(elm.parent);
        return elm.parent;
      }
      while elm.parent != null && elm == elm.parent.right
        invariant elm in nodes && Linked(elm) && elm.hi == n.pos + 1
        decreases elm.lo
      {
        assert Linked(elm.parent);
        elm := elm.parent;
      }
      assert elm.parent != null ==> Linked(elm.parent);
      return elm.parent;
    }

    // RB_PREV
    method Prev(n: Node) returns (r: Node?)
      requires Shape() && n in nodes
      ensures r == At(n.pos - 1)
      ensures r != null ==> r in nodes && At(r.pos + 1) == n // RB_NEXT undoes it
    {
      var elm: Node := n;
      assert Linked(elm);
      if elm.left != null {
        elm := elm.left;
        assert Linked(elm);
        while elm.right != null
          invariant elm in nodes && Linked(elm) && elm.hi == n.pos
          decreases |s| - elm.lo
        {
          elm := elm.right;
          assert Linked(elm);
        }
        return elm;
      }
      if elm.parent != null && elm == elm.parent.right {
        assert Linked(elm.parent);
        return elm.parent;
      }
      while elm.parent != null && elm == elm.parent.left
        invariant elm in nodes && Linked(elm) && elm.lo == n.pos
        decreases |s| - elm.hi
      {
        assert Linked(elm.parent);
        elm := elm.parent;
      }
      assert elm.parent != null ==> Linked(elm.parent);
      return elm.parent;
    }

    // RB_MINMAX
    method MinMax(val: int) returns (r: Node?)
      requires Shape()
      ensures r == if val < 0 then At(0) else At(|s| - 1)
    {
      var tmp := root;
      r := null;
      while tmp != null
        invariant tmp == null || tmp in nodes
        invariant r == null ==> tmp == root
        invariant r != null ==> r in nodes && Linked(r)
        invariant r != null ==> if val < 0 then r.lo == 0 && tmp == r.left else r.hi == |s| && tmp == r.right
        decreases Span(tmp)
      {
        assert Linked(tmp);
        r := tmp;
        if val < 0 {
          tmp := tmp.left;
        } else {
          tmp := tmp.right;
        }
      }
    }

    // RB_FOREACH
    method ForEach() returns (visited: seq<Node>)
      requires Shape()
      ensures visited == s
    {
      visited := [];
      var x := MinMax(-1);
      while x != null
        invariant |visited| <= |s| && visited == s[..|visited|] && x == At(|visited|)
        decreases |s| - |visited|
      {
        visited := visited + [x];
        x := Next(x);
      }
    }

    // RB_FOREACH_REVERSE
    method ForEachReverse() returns (visited: seq<Node>)
      requires Shape()
      ensures |visited| == |s| && forall i | 0 <= i < |s| :: visited[i] == s[|s| - 1 - i]
    {
      visited := [];
      var x := MinMax(1);
      while x != null
        invariant |visited| <= |s| && x == At(|s| - 1 - |visited|)
        invariant forall i | 0 <= i < |visited| :: visited[i] == s[|s| - 1 - i]
        decreases |s| - |visited|
      {
        visited := visited + [x];
        x := Prev(x);
      }
    }

    // RB_FOREACH_SAFE with a body that removes the current node if it is in drop.
    method ForEachSafeRemove(drop: set<Node>) returns (visited: seq<Node>)
      requires Valid()
      modifies this, nodes
      ensures Valid()
      ensures visited == old(s) && s == Keep(old(s), drop)
    {
      hide Shape, Sorted, BhOk, RedOk;
      visited := [];
      ghost var t: seq<Node>, kept: seq<Node> := s, [];
      ghost var i := 0;
      var x := MinMax(-1);
      while x != null
        invariant Valid() && nodes <= old(nodes)
        invariant 0 <= i <= |t| && visited == t[..i] && kept == Keep(t[..i], drop) && s == kept + t[i..]
        invariant x == if i < |t| then t[i] else null
        decreases |t| - i
      {
        KeepNext(t, i, drop);
        visited := visited + [x];
        x := RemoveOrKeep(x, drop, kept, t[i..]);
        kept := Keep(t[..i + 1], drop);
        i := i + 1;
      }
      assert t[..i] == t;
    }

    // One round of the loop: the successor is read before the body runs.
    method RemoveOrKeep(x: Node, drop: set<Node>, ghost kept: seq<Node>, ghost rest: seq<Node>) returns (y: Node?)
      requires Valid() && s == kept + rest && rest != [] && rest[0] == x
      modifies this, nodes
      ensures Valid() && nodes <= old(nodes)
      ensures s == (if x in drop then kept else kept + [x]) + rest[1..]
      ensures y == if |rest| > 1 then rest[1] else null
    {
      hide Sorted, BhOk, RedOk;
      assert s[|kept|] == x;
      y := Next(x);
      assert Without(s, |kept|) == kept + rest[1..];
      if x in drop {
        var _, _, _ := Remove(x);
      }
    }
  }
}
