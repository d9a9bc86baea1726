// Top-down splay trees.
module SplayTree {
  import opened Powers
  import opened Sequences
  import opened SplayCosts
  import opened Wrappers

  class Node {
    const key: int
    var left: Node?
    var right: Node?
    // Index in the in-order sequence and the half-open interval of indices below
    // the node; -1 marks the open end of a hanging tree's inner spine.
    ghost var pos: int
    ghost var lo: int
    ghost var hi: int
    ghost var up: Node?

    constructor (k: int)
      ensures key == k
    {
      key := k;
    }
  }

  ghost predicate Ordered(t: seq<Node>) {
    forall i, j | 0 <= i < j < |t| :: t[i].key < t[j].key
  }

  // No key of t outside the indices [a, b) can be equal to key.
  ghost predicate Outside(t: seq<Node>, key: int, a: int, b: int) {
    && (forall i | 0 <= i < a && i < |t| :: t[i].key < key)
    && (forall i | 0 <= i < |t| && b <= i :: key < t[i].key)
  }

  lemma OrderedWith(t: seq<Node>, k: int, n: Node)
    requires Ordered(t) && 0 <= k <= |t|
    requires forall i | 0 <= i < k :: t[i].key < n.key
    requires forall i | k <= i < |t| :: n.key < t[i].key
    ensures Ordered(With(t, k, n))
  {
  }

  lemma OrderedParts(t: seq<Node>, k: int)
    requires Ordered(t) && 0 <= k < |t|
    ensures Ordered(t[..k]) && Ordered(Without(t, k))
    ensures forall i | 0 <= i < k :: t[i].key < t[k].key
  {
  }

  // n's children split its interval, within the sequence t over the nodes ns.
  ghost predicate Linked(n: Node, t: seq<Node>, ns: set<Node>)
    requires n in ns
    reads ns
  {
    && 0 <= n.lo <= n.pos < n.hi <= |t|
    && t[n.pos] == n
    && (n.left == null ==> n.lo == n.pos)
    && (n.left != null ==> n.left in ns && n.left.lo == n.lo && n.left.hi == n.pos && n.left.up == n)
    && (n.right == null ==> n.hi == n.pos + 1)
    && (n.right != null ==> n.right in ns && n.right.lo == n.pos + 1 && n.right.hi == n.hi && n.right.up == n)
  }

  // The operations of a run; End takes the first node or, for comp above 0, the last.
  datatype Operation = Seek(key: int) | Add(key: int) | Take(key: int) | End(comp: Direction)

  type Direction = c: int | c != 0 witness 1

  // The set of keys after an operation, and what the operation answers: the key found,
  // found already there, or taken out.
  function KeysAfter(keys: set<int>, op: Operation): set<int> {
    match op
    case Add(key) => keys + {key}
    case Take(key) => keys - {key}
    case Seek(_) => keys
    case End(_) => keys
  }

  ghost predicate Answers(keys: set<int>, op: Operation, answer: Option<int>) {
    match op
    case End(comp) =>
      if keys == {} then answer == None
      else
        answer.Some? && answer.value in keys
        && forall x | x in keys :: if comp < 0 then answer.value <= x else x <= answer.value
    case Seek(key) => answer == if key in keys then Some(key) else None
    case Add(key) => answer == if key in keys then Some(key) else None
    case Take(key) => answer == if key in keys then Some(key) else None
  }

  function KeysAfterAll(ops: seq<Operation>): set<int> {
    if ops == [] then {} else KeysAfter(KeysAfterAll(ops[..|ops| - 1]), ops[|ops| - 1])
  }

  lemma KeysAfterPrefix(ops: seq<Operation>, i: nat)
    requires i < |ops|
    ensures KeysAfterAll(ops[..i + 1]) == KeysAfter(KeysAfterAll(ops[..i]), ops[i])
  {
    assert ops[..i + 1][..i] == ops[..i];
  }

  lemma NoKeys(ops: seq<Operation>)
    ensures KeysAfterAll(ops[..0]) == KeysOf([]) && Inserts(ops[..0]) == 0
  {
  }

  lemma OneMore(i: int, cost: int)
    ensures (i + 1) * cost == i * cost + cost
  {
  }

  ghost function KeysOf(t: seq<Node>): set<int> {
    set i | 0 <= i < |t| :: t[i].key
  }

  lemma KeysOfWith(t: seq<Node>, k: int, n: Node)
    requires 0 <= k <= |t|
    ensures KeysOf(With(t, k, n)) == KeysOf(t) + {n.key}
  {
    var u := With(t, k, n);
    assert u[k] == n;
    assert forall i | 0 <= i < |t| :: u[if i < k then i else i + 1] == t[i];
    assert forall i | 0 <= i < |u| && i != k :: u[i] == t[if i < k then i else i - 1];
  }

  lemma SizeOfWith(t: seq<Node>, k: int, n: Node)
    requires 0 <= k <= |t|
    ensures |With(t, k, n)| == |t| + 1
  {
  }

  lemma SizeOfWithout(t: seq<Node>, k: int)
    requires 0 <= k < |t|
    ensures |Without(t, k)| == |t| - 1
  {
  }

  lemma KeyIn(t: seq<Node>, k: int)
    requires 0 <= k < |t|
    ensures t[k].key in KeysOf(t)
  {
  }

  lemma KeysOfWithout(t: seq<Node>, k: int)
    requires Ordered(t) && 0 <= k < |t|
    ensures KeysOf(Without(t, k)) == KeysOf(t) - {t[k].key}
  {
    var u := Without(t, k);
    assert forall i | 0 <= i < |t| && i != k :: u[if i < k then i else i - 1] == t[i];
    assert forall i | 0 <= i < |u| :: u[i] == t[if i < k then i else i + 1];
  }

  lemma KeysOfEnds(t: seq<Node>, comp: Direction)
    requires Ordered(t)
    ensures Answers(KeysOf(t), End(comp), if t == [] then None else Some(t[if comp < 0 then 0 else |t| - 1].key))
  {
    assert t != [] ==> t[0].key in KeysOf(t) && t[|t| - 1].key in KeysOf(t);
  }

  ghost function Inserts(ops: seq<Operation>): nat {
    if ops == [] then 0 else Inserts(ops[..|ops| - 1]) + if ops[|ops| - 1].Add? then 1 else 0
  }

  lemma {:induction false} InsertsOfPrefix(ops: seq<Operation>, i: nat)
    requires i < |ops|
    ensures Inserts(ops[..i + 1]) == Inserts(ops[..i]) + (if ops[i].Add? then 1 else 0) <= Inserts(ops)
    decreases |ops| - i
  {
    assert ops[..i + 1][..i] == ops[..i];
    if i + 1 < |ops| {
      InsertsOfPrefix(ops, i + 1);
    } else {
      assert ops[..i + 1] == ops;
    }
  }

  class Tree {
    var root: Node?
    ghost var s: seq<Node>
    ghost var nodes: set<Node>

    ghost predicate Indexed()
      reads this, nodes
    {
      forall i | 0 <= i < |s| :: s[i] in nodes && s[i].pos == i
    }

    ghost predicate Shape()
      reads this, nodes
    {
      && Indexed()
      && (forall n {:trigger Linked(n, s, nodes)} | n in nodes :: Linked(n, s, nodes))
      && (root == null ==> s == [] && nodes == {})
      && (root != null ==> root in nodes && root.up == null && root.lo == 0 && root.hi == |s|)
    }

    ghost predicate Valid()
      reads this, nodes
    {
      Shape() && Ordered(s)
    }

    // The in-order walk of the subtree at n, by its links alone.
    ghost function InOrder(n: Node?): seq<Node>
      requires Shape() && (n == null || n in nodes)
      reads this, nodes
      decreases if n == null then 0 else n.hi - n.lo
    {
      if n == null then [] else
        assert Linked(n, s, nodes);
        InOrder(n.left) + [n] + InOrder(n.right)
    }

    lemma {:induction false} InOrderOf(n: Node)
      requires Shape() && n in nodes
      ensures 0 <= n.lo <= n.hi <= |s| && InOrder(n) == s[n.lo..n.hi]
      decreases n.hi - n.lo
    {
      assert Linked(n, s, nodes);
      hide Shape;
      if n.left != null {
        InOrderOf(n.left);
      }
      if n.right != null {
        InOrderOf(n.right);
      }
      SplitAt(s, n.lo, n.pos, n.hi);
      assert n.left == null ==> s[n.lo..n.pos] == [];
      assert n.right == null ==> s[n.pos + 1..n.hi] == [];
    }

    // The sequence s is the in-order walk from the root.
    lemma InOrderIsSequence()
      requires Shape()
      ensures InOrder(root) == s
    {
      if root != null {
        InOrderOf(root);
      }
    }

    // A subtree contains the intervals of all nodes whose index it covers.
    lemma {:induction false} Nested(m: Node, n: Node)
      requires Shape() && m in nodes && n in nodes && m.lo <= n.pos < m.hi
      ensures m.lo <= n.lo && n.hi <= m.hi
      decreases m.hi - m.lo
    {
      assert Linked(m, s, nodes) && Linked(n, s, nodes);
      if n.pos < m.pos {
        assert Linked(m.left, s, nodes);
        Nested(m.left, n);
      } else if m.pos < n.pos {
        assert Linked(m.right, s, nodes);
        Nested(m.right, n);
      }
    }

    // No node other than the root covers the root's index.
    ghost predicate Parted()
      reads this, nodes
    {
      root != null && root in nodes && forall n | n in nodes && n != root ::
        (n.pos < root.pos && n.hi <= root.pos) || (root.pos < n.pos && root.pos < n.lo)
    }

    lemma PartedAtRoot()
      requires Shape() && root != null
      ensures Parted()
    {
      assert Linked(root, s, nodes);
      forall n | n in nodes && n != root
        ensures (n.pos < root.pos && n.hi <= root.pos) || (root.pos < n.pos && root.pos < n.lo)
      {
        assert Linked(n, s, nodes);
        if n.pos < root.pos {
          assert Linked(root.left, s, nodes);
          Nested(root.left, n);
        } else {
          assert Linked(root.right, s, nodes);
          Nested(root.right, n);
        }
      }
    }

    // The left half of Linked for a node of any of the three trees. A node of the
    // right tree's inner spine has an open left end, and the last such node, the
    // cursor, a left link that is yet to be written.
    ghost predicate HungLeft(n: Node, right: Node, b: int)
      requires n in nodes
      reads this, nodes
    {
      && 0 <= n.pos < |s| && s[n.pos] == n
      && if n.lo == OPEN then
           b <= n.pos && (n == right ==> n.pos == b)
           && (n != right ==> n.left in nodes && n.left.lo == OPEN && n.left.hi == n.pos && n.left.up == n)
         else
           0 <= n.lo <= n.pos && (n.left == null ==> n.lo == n.pos)
           && (n.left != null ==> n.left in nodes && n.left.lo == n.lo && n.left.hi == n.pos && n.left.up == n)
    }

    ghost predicate HungRight(n: Node, left: Node, a: int)
      requires n in nodes
      reads this, nodes
    {
      && 0 <= n.pos < |s| && s[n.pos] == n
      && if n.hi == OPEN then
           n.pos < a && (n == left ==> n.pos + 1 == a)
           && (n != left ==> n.right in nodes && n.right.hi == OPEN && n.right.lo == n.pos + 1 && n.right.up == n)
         else
           n.pos < n.hi <= |s| && (n.right == null ==> n.hi == n.pos + 1)
           && (n.right != null ==> n.right in nodes && n.right.lo == n.pos + 1 && n.right.hi == n.hi && n.right.up == n)
    }

    ghost predicate Hung(n: Node, left: Node, right: Node, a: int, b: int)
      requires n in nodes
      reads this, nodes
    {
      HungLeft(n, right, b) && HungRight(n, left, a)
    }

    // The state inside the splay loop: the middle tree at root covers [a, b), the
    // tree hanging from node.right covers [0, a) with its hole at left.right, the
    // one hanging from node.left covers [b, |s|) with its hole at right.left.
    ghost predicate Hanging(node: Node, left: Node, right: Node, a: int, b: int)
      reads this, nodes, node
    {
      && Indexed() && node !in nodes
      && (forall n {:trigger Hung(n, left, right, a, b)} | n in nodes :: Hung(n, left, right, a, b))
      && root != null && root in nodes && root.up == null && root.lo == a && root.hi == b && 0 <= a && 0 <= b
      && (left == node ==> a == 0)
      && (left != node ==>
          left in nodes && left.hi == OPEN && left.pos + 1 == a &&
          node.right in nodes && node.right.lo == 0 && node.right.hi == OPEN && node.right.up == null)
      && (right == node ==> b == |s|)
      && (right != node ==>
          right in nodes && right.lo == OPEN && right.pos == b &&
          node.left in nodes && node.left.lo == OPEN && node.left.hi == |s| && node.left.up == null)
    }

    lemma StartHanging(node: Node)
      requires Shape() && root != null && node !in nodes
      ensures Hanging(node, node, node, 0, |s|)
    {
      forall n {:trigger Hung(n, node, node, 0, |s|)} | n in nodes
        ensures Hung(n, node, node, 0, |s|)
      {
        assert Linked(n, s, nodes);
      }
    }

    // The middle tree's root and its children.
    lemma MiddleRoot(node: Node, left: Node, right: Node, a: int, b: int)
      requires Hanging(node, left, right, a, b)
      ensures Indexed() && root != null && root in nodes && root.lo == a && root.hi == b
      ensures 0 <= a <= root.pos < b <= |s| && s[root.pos] == root
      ensures var n := root.left; n != null ==>
        n in nodes && n != root && n.lo == a && n.hi == root.pos && a <= n.pos < root.pos && s[n.pos] == n
      ensures var n := root.right; n != null ==>
        n in nodes && n != root && n.lo == root.pos + 1 && n.hi == b && root.pos < n.pos < b && s[n.pos] == n
    {
      assert Hung(root, left, right, a, b);
      assert root.left != null ==> Hung(root.left, left, right, a, b);
      assert root.right != null ==> Hung(root.right, left, right, a, b);
      assert right != node ==> Hung(right, left, right, a, b);
    }

    // The intervals of all nodes, in order.
    ghost function Spans(): (q: seq<Span>)
      reads this, s
      ensures |q| == |s| && forall i | 0 <= i < |s| :: q[i] == Span(s[i].lo, s[i].hi)
    {
      seq(|s|, i requires 0 <= i < |s| reads this, s => Span(s[i].lo, s[i].hi))
    }

    lemma RootSpan(a: int, b: int)
      requires root != null && 0 <= root.pos < |s| && s[root.pos] == root && root.lo == a && root.hi == b
      ensures |Spans()| == |s| && Spans()[root.pos] == Span(a, b)
    {
    }

    // In an assembled tree no end is open.
    lemma SpansClosed()
      requires Shape()
      ensures Closed(Spans())
    {
      forall i | 0 <= i < |s|
        ensures Spans()[i].lo != OPEN && Spans()[i].hi != OPEN
      {
        assert Linked(s[i], s, nodes);
      }
    }

    twostate lemma OneMoved(top: Node)
      requires s == old(s) && nodes == old(nodes) && Indexed()
      requires top in nodes && 0 <= top.pos < |s| && s[top.pos] == top
      requires forall n | n in old(nodes) && n != top :: n.lo == old(n.lo) && n.hi == old(n.hi)
      ensures Spans() == old(Spans())[top.pos := Span(top.lo, top.hi)]
    {
      var r, q := Spans(), old(Spans())[top.pos := Span(top.lo, top.hi)];
      forall i | 0 <= i < |s|
        ensures r[i] == q[i]
      {
        assert s[i] in nodes && s[i].pos == i;
      }
      assert r == q;
    }

    twostate lemma TwoMoved(c: (Node, Node))
      requires s == old(s) && nodes == old(nodes) && Indexed() && c.0 != c.1
      requires c.0 in nodes && 0 <= c.0.pos < |s| && s[c.0.pos] == c.0
      requires c.1 in nodes && 0 <= c.1.pos < |s| && s[c.1.pos] == c.1
      requires forall n | n in old(nodes) && n != c.0 && n != c.1 :: n.lo == old(n.lo) && n.hi == old(n.hi)
      ensures Spans() == old(Spans())[c.0.pos := Span(c.0.lo, c.0.hi)][c.1.pos := Span(c.1.lo, c.1.hi)]
    {
      var (top, tmp) := c;
      var r, q := Spans(), old(Spans())[top.pos := Span(top.lo, top.hi)][tmp.pos := Span(tmp.lo, tmp.hi)];
      forall i | 0 <= i < |s|
        ensures r[i] == q[i]
      {
        assert s[i] in nodes && s[i].pos == i;
      }
      assert r == q;
    }

    twostate predicate RotatedRight(top: Node, tmp: Node)
      reads this, nodes
    {
      && nodes == old(nodes) && s == old(s) && root == tmp
      && top in nodes && tmp in nodes
      && top.left == old(tmp.right) && top.right == old(top.right) && tmp.left == old(tmp.left) && tmp.right == top
      && top.lo == tmp.pos + 1 && top.hi == old(top.hi) && tmp.lo == old(tmp.lo) && tmp.hi == old(top.hi)
      && top.up == tmp && tmp.up == null && top.pos == old(top.pos) && tmp.pos == old(tmp.pos)
      && forall n | n in old(nodes) && n != top && n != tmp ::
        && n.left == old(n.left) && n.right == old(n.right) && n.pos == old(n.pos) && n.lo == old(n.lo)
        && n.hi == old(n.hi)
        && n.up == (if n == old(tmp.right) then top else old(n.up))
    }

    // SPLAY_ROTATE_RIGHT
    method RotateRight(tmp: Node, ghost node: Node, ghost left: Node, ghost right: Node, ghost a: int, ghost b: int)
      requires Hanging(node, left, right, a, b) && tmp == root.left
      modifies nodes, `root
      ensures Hanging(node, left, right, a, b)
      ensures root == tmp && s == old(s) && nodes == old(nodes) && tmp.pos == old(tmp.pos)
      ensures 0 <= old(root.pos) < |s| && 0 <= tmp.pos < |s|
      ensures Spans() == old(Spans())[old(root.pos) := Span(tmp.pos + 1, b)][tmp.pos := Span(a, b)]
    {
      hide Hanging;
      MiddleRoot(node, left, right, a, b);
      ghost var top: Node := root;
      RelinkRight(tmp, node, left, right, a, b);
      RotatedRightHanging((node, left, right, a, b));
      TwoMoved((top, tmp));
    }

    method RelinkRight(tmp: Node, ghost node: Node, ghost left: Node, ghost right: Node, ghost a: int, ghost b: int)
      requires Hanging(node, left, right, a, b) && tmp == root.left
      modifies nodes, `root
      ensures RotatedRight(old(root), tmp) && unchanged(node)
    {
      assert Hung(root, left, right, a, b) && Hung(tmp, left, right, a, b);
      ghost var top: Node := root;
      root.left := tmp.right;
      tmp.right := root;
      root := tmp;
      ReparentRight(top, tmp);
    }

    ghost method ReparentRight(top: Node, tmp: Node)
      requires top in nodes && tmp in nodes && top != tmp && (top.left == null || top.left in nodes)
      requires top.left != top && top.left != tmp
      modifies nodes`lo, nodes`hi, nodes`up
      ensures forall n | n in nodes ::
        && n.up == (if n == top then tmp else if n == tmp then null else if n == top.left then top else old(n.up))
        && n.lo == (if n == top then tmp.pos + 1 else old(n.lo))
        && n.hi == (if n == tmp then old(top.hi) else old(n.hi))
    {
      if top.left != null {
        top.left.up := top;
      }
      top.up := tmp;
      tmp.up := null;
      top.lo := tmp.pos + 1;
      tmp.hi := top.hi;
    }

    twostate lemma RotatedRightHanging(c: (Node, Node, Node, int, int))
      requires var (node, left, right, a, b) := c; old(Hanging(node, left, right, a, b))
      requires unchanged(c.0)
      requires old(root.left) in old(nodes) && RotatedRight(old(root), old(root.left))
      ensures var (node, left, right, a, b) := c; Hanging(node, left, right, a, b)
    {
      var (node, left, right, a, b) := c;
      assert old(Hung(root, left, right, a, b)) && old(Hung(root.left, left, right, a, b));
      forall n {:trigger Hung(n, left, right, a, b)} | n in nodes
        ensures Hung(n, left, right, a, b)
      {
        assert old(Hung(n, left, right, a, b));
      }
    }

    twostate predicate RotatedLeft(top: Node, tmp: Node)
      reads this, nodes
    {
      && nodes == old(nodes) && s == old(s) && root == tmp
      && top in nodes && tmp in nodes
      && top.right == old(tmp.left) && top.left == old(top.left) && tmp.right == old(tmp.right) && tmp.left == top
      && top.lo == old(top.lo) && top.hi == tmp.pos && tmp.lo == old(top.lo) && tmp.hi == old(tmp.hi)
      && top.up == tmp && tmp.up == null && top.pos == old(top.pos) && tmp.pos == old(tmp.pos)
      && forall n | n in old(nodes) && n != top && n != tmp ::
        && n.right == old(n.right) && n.left == old(n.left) && n.pos == old(n.pos) && n.lo == old(n.lo)
        && n.hi == old(n.hi)
        && n.up == (if n == old(tmp.left) then top else old(n.up))
    }

    // SPLAY_ROTATE_LEFT
    method RotateLeft(tmp: Node, ghost node: Node, ghost left: Node, ghost right: Node, ghost a: int, ghost b: int)
      requires Hanging(node, left, right, a, b) && tmp == root.right
      modifies nodes, `root
      ensures Hanging(node, left, right, a, b)
      ensures root == tmp && s == old(s) && nodes == old(nodes) && tmp.pos == old(tmp.pos)
      ensures 0 <= old(root.pos) < |s| && 0 <= tmp.pos < |s|
      ensures Spans() == old(Spans())[old(root.pos) := Span(a, tmp.pos)][tmp.pos := Span(a, b)]
    {
      hide Hanging;
      MiddleRoot(node, left, right, a, b);
      ghost var top: Node := root;
      RelinkLeft(tmp, node, left, right, a, b);
      RotatedLeftHanging((node, left, right, a, b));
      TwoMoved((top, tmp));
    }

    method RelinkLeft(tmp: Node, ghost node: Node, ghost left: Node, ghost right: Node, ghost a: int, ghost b: int)
      requires Hanging(node, left, right, a, b) && tmp == root.right
      modifies nodes, `root
      ensures RotatedLeft(old(root), tmp) && unchanged(node)
    {
      assert Hung(root, left, right, a, b) && Hung(tmp, left, right, a, b);
      ghost var top: Node := root;
      root.right := tmp.left;
      tmp.left := root;
      root := tmp;
      ReparentLeft(top, tmp);
    }

    ghost method ReparentLeft(top: Node, tmp: Node)
      requires top in nodes && tmp in nodes && top != tmp && (top.right == null || top.right in nodes)
      requires top.right != top && top.right != tmp
      modifies nodes`lo, nodes`hi, nodes`up
      ensures forall n | n in nodes ::
        && n.up == (if n == top then tmp else if n == tmp then null else if n == top.right then top else old(n.up))
        && n.hi == (if n == top then tmp.pos else old(n.hi))
        && n.lo == (if n == tmp then old(top.lo) else old(n.lo))
    {
      if top.right != null {
        top.right.up := top;
      }
      top.up := tmp;
      tmp.up := null;
      top.hi := tmp.pos;
      tmp.lo := top.lo;
    }

    twostate lemma RotatedLeftHanging(c: (Node, Node, Node, int, int))
      requires var (node, left, right, a, b) := c; old(Hanging(node, left, right, a, b))
      requires unchanged(c.0)
      requires old(root.right) in old(nodes) && RotatedLeft(old(root), old(root.right))
      ensures var (node, left, right, a, b) := c; Hanging(node, left, right, a, b)
    {
      var (node, left, right, a, b) := c;
      assert old(Hung(root, left, right, a, b)) && old(Hung(root.right, left, right, a, b));
      forall n {:trigger Hung(n, left, right, a, b)} | n in nodes
        ensures Hung(n, left, right, a, b)
      {
        assert old(Hung(n, left, right, a, b));
      }
    }

    twostate predicate LinkedLeft(node: Node, right: Node, top: Node)
      reads this, nodes, node
    {
      && nodes == old(nodes) && s == old(s) && root == old(top.left)
      && root in nodes && top in nodes && (right == node || right in nodes)
      && node.right == old(node.right)
      && right.left == top && (right != node ==> node.left == old(node.left))
      && top.lo == OPEN && top.up == (if right == node then null else right) && root.up == null
      && (top != right ==> top.left == old(top.left))
      && forall n | n in old(nodes) ::
        && (n != right ==> n.left == old(n.left)) && n.right == old(n.right) && n.pos == old(n.pos) && n.hi == old(n.hi)
        && (n != top ==> n.lo == old(n.lo))
        && (n != top && n != root ==> n.up == old(n.up))
    }

    // SPLAY_LINKLEFT
    method LinkLeft(node: Node, ghost left: Node, right: Node, ghost a: int, ghost b: int) returns (cursor: Node)
      requires Hanging(node, left, right, a, b) && root.left != null
      modifies nodes, node, `root
      ensures cursor == old(root) && root == old(root.left) && s == old(s) && nodes == old(nodes)
      ensures Hanging(node, left, old(root), a, old(root.pos))
      ensures cursor.pos == old(root.pos) && root.pos == old(root.left.pos)
      ensures 0 <= cursor.pos < |s| && Spans() == old(Spans())[cursor.pos := Span(OPEN, b)]
    {
      hide Hanging;
      MiddleRoot(node, left, right, a, b);
      cursor := HangLeft(node, left, right, a, b);
      LinkedLeftHanging((node, left, right, a, b));
      OneMoved(cursor);
    }

    method HangLeft(node: Node, ghost left: Node, right: Node, ghost a: int, ghost b: int) returns (cursor: Node)
      requires Hanging(node, left, right, a, b) && root.left != null
      modifies nodes, node, `root
      ensures cursor == old(root) && LinkedLeft(node, right, old(root))
    {
      assert Hung(root, left, right, a, b) && Hung(root.left, left, right, a, b);
      assert right != node ==> Hung(right, left, right, a, b);
      right.left := root;
      cursor := root;
      root := root.left;
      cursor.lo := OPEN;
      cursor.up := if right == node then null else right;
      root.up := null;
    }

    twostate lemma LinkedLeftHanging(c: (Node, Node, Node, int, int))
      requires var (node, left, right, a, b) := c; old(Hanging(node, left, right, a, b))
      requires var (node, left, right, a, b) := c; old(root.left != null) && LinkedLeft(node, right, old(root))
      ensures var (node, left, right, a, b) := c; Hanging(node, left, old(root), a, old(root.pos))
    {
      var (node, left, right, a, b) := c;
      var top := old(root);
      assert old(Hung(top, left, right, a, b)) && old(Hung(top.left, left, right, a, b));
      assert right != node ==> old(Hung(right, left, right, a, b));
      var e := old(root.pos);
      forall n {:trigger Hung(n, left, top, a, e)} | n in nodes
        ensures Hung(n, left, top, a, e)
      {
        assert old(Hung(n, left, right, a, b));
      }
    }

    twostate predicate LinkedRight(node: Node, left: Node, top: Node)
      reads this, nodes, node
    {
      && nodes == old(nodes) && s == old(s) && root == old(top.right)
      && root in nodes && top in nodes && (left == node || left in nodes)
      && node.left == old(node.left)
      && left.right == top && (left != node ==> node.right == old(node.right))
      && top.hi == OPEN && top.up == (if left == node then null else left) && root.up == null
      && (top != left ==> top.right == old(top.right))
      && forall n | n in old(nodes) ::
        && (n != left ==> n.right == old(n.right)) && n.left == old(n.left) && n.pos == old(n.pos) && n.lo == old(n.lo)
        && (n != top ==> n.hi == old(n.hi))
        && (n != top && n != root ==> n.up == old(n.up))
    }

    // SPLAY_LINKRIGHT
    method LinkRight(node: Node, left: Node, ghost right: Node, ghost a: int, ghost b: int) returns (cursor: Node)
      requires Hanging(node, left, right, a, b) && root.right != null
      modifies nodes, node, `root
      ensures cursor == old(root) && root == old(root.right) && s == old(s) && nodes == old(nodes)
      ensures Hanging(node, old(root), right, old(root.pos) + 1, b)
      ensures cursor.pos == old(root.pos) && root.pos == old(root.right.pos)
      ensures 0 <= cursor.pos < |s| && Spans() == old(Spans())[cursor.pos := Span(a, OPEN)]
    {
      hide Hanging;
      MiddleRoot(node, left, right, a, b);
      cursor := HangRight(node, left, right, a, b);
      LinkedRightHanging((node, left, right, a, b));
      OneMoved(cursor);
    }

    method HangRight(node: Node, left: Node, ghost right: Node, ghost a: int, ghost b: int) returns (cursor: Node)
      requires Hanging(node, left, right, a, b) && root.right != null
      modifies nodes, node, `root
      ensures cursor == old(root) && LinkedRight(node, left, old(root))
    {
      assert Hung(root, left, right, a, b) && Hung(root.right, left, right, a, b);
      assert left != node ==> Hung(left, left, right, a, b);
      left.right := root;
      cursor := root;
      root := root.right;
      cursor.hi := OPEN;
      cursor.up := if left == node then null else left;
      root.up := null;
    }

    twostate lemma LinkedRightHanging(c: (Node, Node, Node, int, int))
      requires var (node, left, right, a, b) := c; old(Hanging(node, left, right, a, b))
      requires var (node, left, right, a, b) := c; old(root.right != null) && LinkedRight(node, left, old(root))
      ensures var (node, left, right, a, b) := c; Hanging(node, old(root), right, old(root.pos) + 1, b)
    {
      var (node, left, right, a, b) := c;
      var top := old(root);
      assert old(Hung(top, left, right, a, b)) && old(Hung(top.right, left, right, a, b));
      assert left != node ==> old(Hung(left, left, right, a, b));
      var e := old(root.pos) + 1;
      forall n {:trigger Hung(n, top, right, e, b)} | n in nodes
        ensures Hung(n, top, right, e, b)
      {
        assert old(Hung(n, left, right, a, b));
      }
    }

    // Rotate and link: two nodes leave the middle tree on one side.
    method RotateAndLinkLeft(tmp: Node, node: Node, ghost left: Node, right: Node, ghost a: int, ghost b: int)
        returns (done: bool, cursor: Node)
      requires Hanging(node, left, right, a, b) && tmp == root.left
      modifies nodes, node, `root
      ensures s == old(s) && nodes == old(nodes)
      ensures done ==> Hanging(node, left, right, a, b) && root == tmp && root.left == null && cursor == right
      ensures done ==> Rises(old(Spans()), Spans(), a, b, Rank(b - a))
      ensures !done ==> cursor == tmp && cursor.pos == old(tmp.pos) && root != null
      ensures !done ==> Hanging(node, left, cursor, a, cursor.pos) && a < cursor.pos < b
      ensures !done ==> Rises(old(Spans()), Spans(), a, cursor.pos, 2 * (Rank(b - a) - Rank(cursor.pos - a)) - 1)
    {
      hide Rises, Rank, Hanging, Spans;
      MiddleRoot(node, left, right, a, b);
      ghost var q, i, j := Spans(), root.pos, tmp.pos;
      assert q[i] == Span(a, b) && q[j] == Span(a, i);
      RotateRight(tmp, node, left, right, a, b);
      ghost var mid := Spans();
      MiddleRoot(node, left, right, a, b);
      if root.left == null {
        RotationRises(q, mid, a, b, i, j, Span(j + 1, b));
        return true, right;
      }
      cursor := LinkLeft(node, left, right, a, b);
      done := false;
      RotateAndLinkLeftRises(q, mid, Spans(), a, b, i, j);
    }

    // Rotate and link: two nodes leave the middle tree on one side.
    method RotateAndLinkRight(tmp: Node, node: Node, left: Node, ghost right: Node, ghost a: int, ghost b: int)
        returns (done: bool, cursor: Node)
      requires Hanging(node, left, right, a, b) && tmp == root.right
      modifies nodes, node, `root
      ensures s == old(s) && nodes == old(nodes)
      ensures done ==> Hanging(node, left, right, a, b) && root == tmp && root.right == null && cursor == left
      ensures done ==> Rises(old(Spans()), Spans(), a, b, Rank(b - a))
      ensures !done ==> cursor == tmp && cursor.pos == old(tmp.pos) && root != null
      ensures !done ==> Hanging(node, cursor, right, cursor.pos + 1, b) && a <= cursor.pos < b - 1
      ensures !done ==>
                Rises(old(Spans()), Spans(), cursor.pos + 1, b, 2 * (Rank(b - a) - Rank(b - cursor.pos - 1)) - 1)
    {
      hide Rises, Rank, Hanging, Spans;
      MiddleRoot(node, left, right, a, b);
      ghost var q, i, j := Spans(), root.pos, tmp.pos;
      assert q[i] == Span(a, b) && q[j] == Span(i + 1, b);
      RotateLeft(tmp, node, left, right, a, b);
      ghost var mid := Spans();
      MiddleRoot(node, left, right, a, b);
      if root.right == null {
        RotationRises(q, mid, a, b, i, j, Span(a, j));
        return true, left;
      }
      cursor := LinkRight(node, left, right, a, b);
      done := false;
      RotateAndLinkRightRises(q, mid, Spans(), a, b, i, j);
    }

    // The two kinds of round, with what they cost: rotate and link,
    method RotateRoundLeft(tmp: Node, node: Node, ghost left: Node, right: Node, ghost a: int, ghost b: int,
        ghost steps: nat, ghost base: int, ghost turn: Turn)
        returns (done: bool, cursor: Node)
      requires Hanging(node, left, right, a, b) && tmp == root.left && Paid(Spans(), steps, base, turn, a, b)
      modifies nodes, node, `root
      ensures s == old(s) && nodes == old(nodes) && root != null
      ensures done ==> Hanging(node, left, right, a, b) && root == tmp && root.left == null && cursor == right
      ensures done ==> PaidOff(Spans(), steps + 1, base, a, b, root.pos)
      ensures !done ==> cursor == tmp && cursor.pos == old(tmp.pos)
      ensures !done ==> Hanging(node, left, cursor, a, cursor.pos) && a < cursor.pos < b
      ensures !done ==> Paid(Spans(), steps + 1, base, Straight, a, cursor.pos)
    {
      hide Rank, Rises, Paid, PaidOff, Hanging, Spans;
      ghost var q := Spans();
      done, cursor := RotateAndLinkLeft(tmp, node, left, right, a, b);
      if done {
        MiddleRoot(node, left, right, a, b);
        PaidAtBreak(q, Spans(), steps, base, turn, a, b, root.pos);
      } else {
        PaidByRotation(q, Spans(), steps, base, turn, a, b, a, cursor.pos);
      }
    }

    // The two kinds of round, with what they cost: rotate and link,
    method RotateRoundRight(tmp: Node, node: Node, left: Node, ghost right: Node, ghost a: int, ghost b: int,
        ghost steps: nat, ghost base: int, ghost turn: Turn)
        returns (done: bool, cursor: Node)
      requires Hanging(node, left, right, a, b) && tmp == root.right && Paid(Spans(), steps, base, turn, a, b)
      modifies nodes, node, `root
      ensures s == old(s) && nodes == old(nodes) && root != null
      ensures done ==> Hanging(node, left, right, a, b) && root == tmp && root.right == null && cursor == left
      ensures done ==> PaidOff(Spans(), steps + 1, base, a, b, root.pos)
      ensures !done ==> cursor == tmp && cursor.pos == old(tmp.pos)
      ensures !done ==> Hanging(node, cursor, right, cursor.pos + 1, b) && a <= cursor.pos < b - 1
      ensures !done ==> Paid(Spans(), steps + 1, base, Straight, cursor.pos + 1, b)
    {
      hide Rank, Rises, Paid, PaidOff, Hanging, Spans;
      ghost var q := Spans();
      done, cursor := RotateAndLinkRight(tmp, node, left, right, a, b);
      if done {
        MiddleRoot(node, left, right, a, b);
        PaidAtBreak(q, Spans(), steps, base, turn, a, b, root.pos);
      } else {
        PaidByRotation(q, Spans(), steps, base, turn, a, b, cursor.pos + 1, b);
      }
    }

    // or link alone.
    method LinkRoundLeft(node: Node, ghost left: Node, right: Node, ghost a: int, ghost b: int,
        ghost steps: nat, ghost base: int, ghost turn: Turn)
        returns (cursor: Node, ghost next: Turn)
      requires Hanging(node, left, right, a, b) && root.left != null
      requires Paid(Spans(), steps, base, turn, a, b) && !turn.WentLeft?
      modifies nodes, node, `root
      ensures s == old(s) && nodes == old(nodes) && root == old(root.left)
      ensures cursor == old(root) && cursor.pos == old(root.pos)
      ensures Hanging(node, left, cursor, a, cursor.pos) && a < cursor.pos < b
      ensures Paid(Spans(), steps + 1, base, next, a, cursor.pos) && !next.WentRight?
    {
      hide Rank, Paid, Hanging, Spans;
      ghost var q := Spans();
      MiddleRoot(node, left, right, a, b);
      RootSpan(a, b);
      cursor := LinkLeft(node, left, right, a, b);
      PaidByLinkLeft(q, Spans(), steps, base, turn, a, b, cursor.pos);
      next := AfterLeft(turn, b);
    }

    // or link alone.
    method LinkRoundRight(node: Node, left: Node, ghost right: Node, ghost a: int, ghost b: int,
        ghost steps: nat, ghost base: int, ghost turn: Turn)
        returns (cursor: Node, ghost next: Turn)
      requires Hanging(node, left, right, a, b) && root.right != null
      requires Paid(Spans(), steps, base, turn, a, b) && !turn.WentRight?
      modifies nodes, node, `root
      ensures s == old(s) && nodes == old(nodes) && root == old(root.right)
      ensures cursor == old(root) && cursor.pos == old(root.pos)
      ensures Hanging(node, cursor, right, cursor.pos + 1, b) && a <= cursor.pos < b - 1
      ensures Paid(Spans(), steps + 1, base, next, cursor.pos + 1, b) && !next.WentLeft?
    {
      hide Rank, Paid, Hanging, Spans;
      ghost var q := Spans();
      MiddleRoot(node, left, right, a, b);
      RootSpan(a, b);
      cursor := LinkRight(node, left, right, a, b);
      PaidByLinkRight(q, Spans(), steps, base, turn, a, b, cursor.pos);
      next := AfterRight(turn, a);
    }

    // One round of the splay loop for a key left of the root: done when the place of the
    // key is reached, otherwise the middle tree has shrunk.  Either way the round is paid.
    method SplayLeft(key: int, node: Node, ghost left: Node, right: Node, ghost a: int, ghost b: int,
        ghost steps: nat, ghost base: int, ghost turn: Turn)
        returns (done: bool, cursor: Node, ghost next: Turn)
      requires Hanging(node, left, right, a, b) && Outside(s, key, a, b) && Ordered(s) && key < root.key
      requires Paid(Spans(), steps, base, turn, a, b) && !turn.WentLeft?
      modifies nodes, node, `root
      ensures s == old(s) && nodes == old(nodes) && root != null
      ensures done ==> Hanging(node, left, right, a, b) && key < root.key && root.left == null
      ensures done ==> cursor == right && PaidOff(Spans(), steps + 1, base, a, b, root.pos)
      ensures !done ==> Hanging(node, left, cursor, a, cursor.pos) && Outside(s, key, a, cursor.pos)
      ensures !done ==> a < cursor.pos < b
      ensures !done ==> Paid(Spans(), steps + 1, base, next, a, cursor.pos)
      ensures !done ==> !next.WentRight? && (next.WentLeft? ==> root.key <= key)
    {
      hide Rank, Rises, Paid, PaidOff, Hanging, Spans, Outside, Ordered;
      MiddleRoot(node, left, right, a, b);
      next := Straight;
      var tmp := root.left;
      if tmp == null {
        NoRise(Spans(), a, b);
        PaidAtBreak(Spans(), Spans(), steps, base, turn, a, b, root.pos);
        return true, right, next;
      }
      if key < tmp.key {
        OutsideFrom(key, a, b, tmp.pos);
        done, cursor := RotateRoundLeft(tmp, node, left, right, a, b, steps, base, turn);
      } else {
        OutsideFrom(key, a, b, root.pos);
        cursor, next := LinkRoundLeft(node, left, right, a, b, steps, base, turn);
        done := false;
      }
    }

    // One round of the splay loop for a key right of the root: done when the place of the
    // key is reached, otherwise the middle tree has shrunk.  Either way the round is paid.
    method SplayRight(key: int, node: Node, left: Node, ghost right: Node, ghost a: int, ghost b: int,
        ghost steps: nat, ghost base: int, ghost turn: Turn)
        returns (done: bool, cursor: Node, ghost next: Turn)
      requires Hanging(node, left, right, a, b) && Outside(s, key, a, b) && Ordered(s) && root.key < key
      requires Paid(Spans(), steps, base, turn, a, b) && !turn.WentRight?
      modifies nodes, node, `root
      ensures s == old(s) && nodes == old(nodes) && root != null
      ensures done ==> Hanging(node, left, right, a, b) && root.key < key && root.right == null
      ensures done ==> cursor == left && PaidOff(Spans(), steps + 1, base, a, b, root.pos)
      ensures !done ==> Hanging(node, cursor, right, cursor.pos + 1, b) && Outside(s, key, cursor.pos + 1, b)
      ensures !done ==> a <= cursor.pos < b - 1
      ensures !done ==> Paid(Spans(), steps + 1, base, next, cursor.pos + 1, b)
      ensures !done ==> !next.WentLeft? && (next.WentRight? ==> key <= root.key)
    {
      hide Rank, Rises, Paid, PaidOff, Hanging, Spans, Outside, Ordered;
      MiddleRoot(node, left, right, a, b);
      next := Straight;
      var tmp := root.right;
      if tmp == null {
        NoRise(Spans(), a, b);
        PaidAtBreak(Spans(), Spans(), steps, base, turn, a, b, root.pos);
        return true, left, next;
      }
      if tmp.key < key {
        OutsideFrom(key, a, b, tmp.pos);
        done, cursor := RotateRoundRight(tmp, node, left, right, a, b, steps, base, turn);
      } else {
        OutsideFrom(key, a, b, root.pos);
        cursor, next := LinkRoundRight(node, left, right, a, b, steps, base, turn);
        done := false;
      }
    }

    // One round of the minimum/maximum loop: rotate, then link.
    method DescendLeft(node: Node, ghost left: Node, right: Node, ghost a: int, ghost b: int,
        ghost steps: nat, ghost base: int)
        returns (done: bool, cursor: Node)
      requires Hanging(node, left, right, a, b) && Paid(Spans(), steps, base, Straight, a, b)
      modifies nodes, node, `root
      ensures s == old(s) && nodes == old(nodes) && root != null
      ensures done ==> Hanging(node, left, right, a, b) && root.left == null && cursor == right
      ensures done ==> PaidOff(Spans(), steps + 1, base, a, b, root.pos)
      ensures !done ==> Hanging(node, left, cursor, a, cursor.pos) && a < cursor.pos < b
      ensures !done ==> Paid(Spans(), steps + 1, base, Straight, a, cursor.pos)
    {
      hide Rank, Rises, Paid, PaidOff, Hanging, Spans;
      MiddleRoot(node, left, right, a, b);
      var tmp := root.left;
      if tmp == null {
        NoRise(Spans(), a, b);
        PaidAtBreak(Spans(), Spans(), steps, base, Straight, a, b, root.pos);
        return true, right;
      }
      done, cursor := RotateRoundLeft(tmp, node, left, right, a, b, steps, base, Straight);
    }

    // One round of the minimum/maximum loop: rotate, then link.
    method DescendRight(node: Node, left: Node, ghost right: Node, ghost a: int, ghost b: int,
        ghost steps: nat, ghost base: int)
        returns (done: bool, cursor: Node)
      requires Hanging(node, left, right, a, b) && Paid(Spans(), steps, base, Straight, a, b)
      modifies nodes, node, `root
      ensures s == old(s) && nodes == old(nodes) && root != null
      ensures done ==> Hanging(node, left, right, a, b) && root.right == null && cursor == left
      ensures done ==> PaidOff(Spans(), steps + 1, base, a, b, root.pos)
      ensures !done ==> Hanging(node, cursor, right, cursor.pos + 1, b) && a <= cursor.pos < b - 1
      ensures !done ==> Paid(Spans(), steps + 1, base, Straight, cursor.pos + 1, b)
    {
      hide Rank, Rises, Paid, PaidOff, Hanging, Spans;
      MiddleRoot(node, left, right, a, b);
      var tmp := root.right;
      if tmp == null {
        NoRise(Spans(), a, b);
        PaidAtBreak(Spans(), Spans(), steps, base, Straight, a, b, root.pos);
        return true, left;
      }
      done, cursor := RotateRoundRight(tmp, node, left, right, a, b, steps, base, Straight);
    }

    // The new node takes the splayed root's left subtree and gets the root as its
    // right child.
    method AddAboveLeft(elm: Node)
      requires Shape() && root != null && elm !in nodes
      modifies this, nodes, elm
      ensures Shape() && root == elm
      ensures s == With(old(s), old(root.pos), elm) && nodes == old(nodes) + {elm}
      ensures elm.pos == old(root.pos)
      ensures Grows(old(Spans()), Spans(), elm.pos)
    {
      hide Shape, Parted, Grows;
      PartedAtRoot();
      RelinkAboveLeft(elm);
      AddedAboveLeftShape(elm);
      AddedAboveLeftSpans(elm);
    }

    method RelinkAboveLeft(elm: Node)
      requires Shape() && root != null && elm !in nodes
      modifies this, nodes, elm
      ensures AddedAboveLeft(elm)
    {
      hide With;
      assert Linked(root, s, nodes);
      hide Shape, Linked;
      ghost var top: Node, l := root, root.left;
      elm.left := root.left;
      elm.right := root;
      root.left := null;
      root := elm;
      ghost var k := top.pos;
      PlaceLeft(elm, top, l, k);
      s := With(s, k, elm);
      nodes := nodes + {elm};
    }

    ghost method PlaceLeft(elm: Node, top: Node, l: Node?, k: int)
      requires top in nodes && elm !in nodes && (l == null || l in nodes) && l != top && top.lo <= k
      modifies nodes`pos, nodes`lo, nodes`hi, nodes`up, elm`pos, elm`lo, elm`hi, elm`up
      ensures elm.pos == k && elm.lo == 0 && elm.hi == |s| + 1 && elm.up == null
      ensures forall n | n in nodes ::
        && n.pos == old(n.pos) + (if old(n.pos) >= k then 1 else 0)
        && n.lo == (if n == top then k + 1 else old(n.lo) + (if old(n.lo) > k then 1 else 0))
        && n.hi == old(n.hi) + (if old(n.hi) > k then 1 else 0)
        && n.up == (if n == top || n == l then elm else old(n.up))
    {
      forall n | n in nodes {
        n.pos := if n.pos >= k then n.pos + 1 else n.pos;
      }
      forall n | n in nodes {
        n.lo := if n == top then k + 1 else if n.lo > k then n.lo + 1 else n.lo;
      }
      forall n | n in nodes {
        n.hi := if n.hi > k then n.hi + 1 else n.hi;
      }
      forall n | n in nodes {
        n.up := if n == top || n == l then elm else n.up;
      }
      elm.pos, elm.lo, elm.hi, elm.up := k, 0, |s| + 1, null;
    }

    twostate predicate AddedAboveLeft(elm: Node)
      reads this, nodes, elm
    {
      && elm !in old(nodes) && old(root) != null
      && s == With(old(s), old(root.pos), elm) && nodes == old(nodes) + {elm} && root == elm
      && elm.left == old(root.left) && elm.right == old(root)
      && elm.pos == old(root.pos) && elm.lo == 0 && elm.hi == |old(s)| + 1 && elm.up == null
      && forall n | n in old(nodes) ::
        && n.left == (if n == old(root) then null else old(n.left)) && n.right == old(n.right)
        && n.pos == old(n.pos) + (if old(n.pos) >= elm.pos then 1 else 0)
        && n.lo == (if n == old(root) then elm.pos + 1 else old(n.lo) + (if old(n.lo) > elm.pos then 1 else 0))
        && n.hi == old(n.hi) + (if old(n.hi) > elm.pos then 1 else 0)
        && n.up == (if n == old(root) || n == old(root.left) then elm else old(n.up))
    }

    twostate lemma NarrowedLeft(c: (Node, Node))
      requires old(Shape() && Parted()) && AddedAboveLeft(c.0) && c.1 in old(nodes)
      ensures c.1.hi - c.1.lo <= old(c.1.hi - c.1.lo)
    {
      assert old(Linked(root, s, nodes)) && old(Linked(c.1, s, nodes));
    }

    twostate lemma AddedAboveLeftSpans(elm: Node)
      requires old(Shape() && Parted()) && AddedAboveLeft(elm) && Shape()
      ensures Grows(old(Spans()), Spans(), elm.pos)
    {
      hide Parted, With;
      var t, k, q, r := old(s), elm.pos, old(Spans()), Spans();
      assert Linked(elm, s, nodes);
      forall i | 0 <= i < |q|
        ensures Shrinks(q[i], r[Moved(i, k)])
      {
        var n := t[i];
        assert old(s[i] in nodes && s[i].pos == i);
        NarrowedLeft((elm, n));
        assert n.pos == Moved(i, k) && Linked(n, s, nodes);
      }
    }

    twostate lemma AddedAboveLeftShape(elm: Node)
      requires old(Shape() && Parted()) && AddedAboveLeft(elm)
      ensures Shape()
    {
      assert old(Linked(root, s, nodes));
      assert old(root.left) != null ==> old(Linked(root.left, s, nodes));
      forall n {:trigger Linked(n, s, nodes)} | n in nodes
        ensures Linked(n, s, nodes)
      {
        if n != elm {
          AddedAboveLeftLinked((elm, n));
        }
      }
    }

    twostate lemma AddedAboveLeftLinked(c: (Node, Node))
      requires old(Shape() && Parted()) && AddedAboveLeft(c.0) && c.1 in old(nodes)
      ensures Linked(c.1, s, nodes)
    {
      var n := c.1;
      assert old(Linked(n, s, nodes)) && old(Linked(root, s, nodes));
      assert old(n.right) != null ==> old(Linked(n.right, s, nodes));
    }

    // The new node takes the splayed root's right subtree and gets the root as its
    // left child.
    method AddAboveRight(elm: Node)
      requires Shape() && root != null && elm !in nodes
      modifies this, nodes, elm
      ensures Shape() && root == elm
      ensures s == With(old(s), old(root.pos) + 1, elm) && nodes == old(nodes) + {elm}
      ensures elm.pos == old(root.pos) + 1
      ensures Grows(old(Spans()), Spans(), elm.pos)
    {
      hide Shape, Parted, Grows;
      PartedAtRoot();
      RelinkAboveRight(elm);
      AddedAboveRightShape(elm);
      AddedAboveRightSpans(elm);
    }

    method RelinkAboveRight(elm: Node)
      requires Shape() && root != null && elm !in nodes
      modifies this, nodes, elm
      ensures AddedAboveRight(elm)
    {
      hide With;
      assert Linked(root, s, nodes);
      hide Shape, Linked;
      ghost var top: Node, l := root, root.right;
      elm.right := root.right;
      elm.left := root;
      root.right := null;
      root := elm;
      ghost var k := top.pos + 1;
      PlaceRight(elm, top, l, k);
      s := With(s, k, elm);
      nodes := nodes + {elm};
    }

    ghost method PlaceRight(elm: Node, top: Node, l: Node?, k: int)
      requires top in nodes && elm !in nodes && (l == null || l in nodes) && l != top && k <= top.hi
      modifies nodes`pos, nodes`lo, nodes`hi, nodes`up, elm`pos, elm`lo, elm`hi, elm`up
      ensures elm.pos == k && elm.lo == 0 && elm.hi == |s| + 1 && elm.up == null
      ensures forall n | n in nodes ::
        && n.pos == old(n.pos) + (if old(n.pos) >= k then 1 else 0)
        && n.lo == old(n.lo) + (if old(n.lo) >= k then 1 else 0)
        && n.hi == (if n == top then k else old(n.hi) + (if old(n.hi) > k then 1 else 0))
        && n.up == (if n == top || n == l then elm else old(n.up))
    {
      forall n | n in nodes {
        n.pos := if n.pos >= k then n.pos + 1 else n.pos;
      }
      forall n | n in nodes {
        n.lo := if n.lo >= k then n.lo + 1 else n.lo;
      }
      forall n | n in nodes {
        n.hi := if n == top then k else if n.hi > k then n.hi + 1 else n.hi;
      }
      forall n | n in nodes {
        n.up := if n == top || n == l then elm else n.up;
      }
      elm.pos, elm.lo, elm.hi, elm.up := k, 0, |s| + 1, null;
    }

    twostate predicate AddedAboveRight(elm: Node)
      reads this, nodes, elm
    {
      && elm !in old(nodes) && old(root) != null
      && s == With(old(s), old(root.pos) + 1, elm) && nodes == old(nodes) + {elm} && root == elm
      && elm.right == old(root.right) && elm.left == old(root)
      && elm.pos == old(root.pos) + 1 && elm.lo == 0 && elm.hi == |old(s)| + 1 && elm.up == null
      && forall n | n in old(nodes) ::
        && n.right == (if n == old(root) then null else old(n.right)) && n.left == old(n.left)
        && n.pos == old(n.pos) + (if old(n.pos) >= elm.pos then 1 else 0)
        && n.lo == old(n.lo) + (if old(n.lo) >= elm.pos then 1 else 0)
        && n.hi == (if n == old(root) then elm.pos else old(n.hi) + (if old(n.hi) > elm.pos then 1 else 0))
        && n.up == (if n == old(root) || n == old(root.right) then elm else old(n.up))
    }

    twostate lemma NarrowedRight(c: (Node, Node))
      requires old(Shape() && Parted()) && AddedAboveRight(c.0) && c.1 in old(nodes)
      ensures c.1.hi - c.1.lo <= old(c.1.hi - c.1.lo)
    {
      assert old(Linked(root, s, nodes)) && old(Linked(c.1, s, nodes));
    }

    twostate lemma AddedAboveRightSpans(elm: Node)
      requires old(Shape() && Parted()) && AddedAboveRight(elm) && Shape()
      ensures Grows(old(Spans()), Spans(), elm.pos)
    {
      hide Parted, With;
      var t, k, q, r := old(s), elm.pos, old(Spans()), Spans();
      assert Linked(elm, s, nodes);
      forall i | 0 <= i < |q|
        ensures Shrinks(q[i], r[Moved(i, k)])
      {
        var n := t[i];
        assert old(s[i] in nodes && s[i].pos == i);
        NarrowedRight((elm, n));
        assert n.pos == Moved(i, k) && Linked(n, s, nodes);
      }
    }

    twostate lemma AddedAboveRightShape(elm: Node)
      requires old(Shape() && Parted()) && AddedAboveRight(elm)
      ensures Shape()
    {
      assert old(Linked(root, s, nodes));
      assert old(root.right) != null ==> old(Linked(root.right, s, nodes));
      forall n {:trigger Linked(n, s, nodes)} | n in nodes
        ensures Linked(n, s, nodes)
      {
        if n != elm {
          AddedAboveRightLinked((elm, n));
        }
      }
    }

    twostate lemma AddedAboveRightLinked(c: (Node, Node))
      requires old(Shape() && Parted()) && AddedAboveRight(c.0) && c.1 in old(nodes)
      ensures Linked(c.1, s, nodes)
    {
      var n := c.1;
      assert old(Linked(n, s, nodes)) && old(Linked(root, s, nodes));
      assert old(n.left) != null ==> old(Linked(n.left, s, nodes));
    }

    twostate predicate Assembled(node: Node, left: Node, right: Node)
      reads this, nodes, node
    {
      && nodes == old(nodes) && s == old(s) && root == old(root) && root in nodes
      && root.pos == old(root.pos) && root.up == null && root.lo == 0 && root.hi == |s|
      && root.left == (if left == node then old(root.left) else old(node.right))
      && root.right == (if right == node then old(root.right) else old(node.left))
      && forall n | n in old(nodes) && n != root ::
        && n.pos == old(n.pos)
        && n.left == (if n == right then old(root.right) else old(n.left))
        && n.right == (if n == left then old(root.left) else old(n.right))
        && n.lo == (if old(n.lo) == OPEN then root.pos + 1 else old(n.lo))
        && n.hi == (if old(n.hi) == OPEN then root.pos else old(n.hi))
        && n.up == (if n == root.left || n == root.right then root
                    else if n == old(root.left) then left
                    else if n == old(root.right) then right
                    else old(n.up))
    }

    // SPLAY_ASSEMBLE
    method Assemble(node: Node, left: Node, right: Node, ghost a: int, ghost b: int)
      requires Hanging(node, left, right, a, b)
      modifies nodes, node
      ensures Shape() && root == old(root) && root in nodes && root.pos == old(root.pos)
      ensures s == old(s) && nodes == old(nodes)
      ensures Assembled(node, left, right)
    {
      hide Hanging, Shape;
      Tie(node, left, right, a, b);
      AssembledShape((node, left, right, a, b));
    }

    method Tie(node: Node, left: Node, right: Node, ghost a: int, ghost b: int)
      requires Hanging(node, left, right, a, b)
      modifies nodes, node
      ensures Assembled(node, left, right)
    {
      assert Hung(root, left, right, a, b);
      assert left != node ==> Hung(left, left, right, a, b);
      assert right != node ==> Hung(right, left, right, a, b);
      ghost var l, r := root.left, root.right;
      left.right := root.left;
      right.left := root.right;
      root.left := node.right;
      root.right := node.left;
      Close(node, left, right, l, r);
    }

    ghost method Close(node: Node, left: Node, right: Node, l: Node?, r: Node?)
      requires root != null && root in nodes && root.up == null
      requires l != root && r != root && root.left != root && root.right != root
      modifies nodes`lo, nodes`hi, nodes`up
      ensures root.up == null && root.lo == 0 && root.hi == |s|
      ensures forall n | n in nodes && n != root ::
        && n.lo == (if old(n.lo) == OPEN then root.pos + 1 else old(n.lo))
        && n.hi == (if old(n.hi) == OPEN then root.pos else old(n.hi))
        && n.up == (if n == root.left || n == root.right then root
                    else if n == l then left
                    else if n == r then right
                    else old(n.up))
    {
      forall n | n in nodes {
        n.lo := if n == root then 0 else if n.lo == OPEN then root.pos + 1 else n.lo;
      }
      forall n | n in nodes {
        n.hi := if n == root then |s| else if n.hi == OPEN then root.pos else n.hi;
      }
      forall n | n in nodes && n != root {
        n.up := if n == root.left || n == root.right then root
                else if n == l then left
                else if n == r then right
                else n.up;
      }
    }

    twostate lemma AssembledShape(c: (Node, Node, Node, int, int))
      requires var (node, left, right, a, b) := c; old(Hanging(node, left, right, a, b))
      requires Assembled(c.0, c.1, c.2)
      ensures Shape()
    {
      var (node, left, right, a, b) := c;
      assert old(Hung(root, left, right, a, b));
      assert left != node ==> old(Hung(left, left, right, a, b));
      assert right != node ==> old(Hung(right, left, right, a, b));
      forall n {:trigger Linked(n, s, nodes)} | n in nodes
        ensures Linked(n, s, nodes)
      {
        assert old(Hung(n, left, right, a, b));
      }
    }

    constructor ()
      ensures Valid() && s == [] && nodes == {}
    {
      root := null;
      s := [];
      nodes := {};
    }

    // key's place is at the root: everything before the root is smaller than key,
    // everything after it is larger.
    ghost predicate AtRoot(key: int)
      reads this, nodes
    {
      && root != null && root in nodes
      && 0 <= root.pos < |s| && s[root.pos] == root
      && Outside(s, key, root.pos, root.pos + 1)
    }

    lemma OutsideFrom(key: int, a: int, b: int, p: int)
      requires Ordered(s) && Outside(s, key, a, b) && 0 <= p < |s|
      ensures key < s[p].key ==> Outside(s, key, a, p)
      ensures s[p].key < key ==> Outside(s, key, p + 1, b)
    {
    }

    lemma PlaceFound(key: int, node: Node, left: Node, right: Node, a: int, b: int)
      requires Ordered(s) && Outside(s, key, a, b) && Hanging(node, left, right, a, b)
      requires root.key == key || (key < root.key && root.left == null) || (root.key < key && root.right == null)
      ensures 0 <= root.pos < |s| && s[root.pos] == root && Outside(s, key, root.pos, root.pos + 1)
      ensures 0 <= a <= root.pos < b
    {
      assert Hung(root, left, right, a, b);
      MiddleRoot(node, left, right, a, b);
    }

    // The loop of SPLAY, with the number of its rounds.
    method Search(key: int, node: Node) returns (left: Node, right: Node, ghost a: int, ghost b: int, ghost steps: nat)
      requires Valid() && root != null && node !in nodes
      modifies nodes, node, `root
      ensures Hanging(node, left, right, a, b) && s == old(s) && nodes == old(nodes)
      ensures 0 <= root.pos < |s| && s[root.pos] == root && Outside(s, key, root.pos, root.pos + 1)
      ensures 0 <= a <= root.pos < b && PaidOff(Spans(), steps, old(Credit(Spans())), a, b, root.pos)
    {
      hide Paid, PaidOff, Credit, Shape, Hanging, Outside;
      left, right, a, b, steps := node, node, 0, |s|, 0;
      ghost var base, turn := Credit(Spans()), Straight;
      StartSearch(key, node);
      while key != root.key
        invariant Hanging(node, left, right, a, b) && Outside(s, key, a, b) && root != null
        invariant Paid(Spans(), steps, base, turn, a, b)
        invariant (turn.WentLeft? ==> root.key <= key) && (turn.WentRight? ==> key <= root.key)
        decreases b - a
      {
        var done;
        if key < root.key {
          done, right, turn := SplayLeft(key, node, left, right, a, b, steps, base, turn);
          steps := steps + 1;
          if done {
            PlaceFound(key, node, left, right, a, b);
            return;
          }
          b := right.pos;
        } else {
          done, left, turn := SplayRight(key, node, left, right, a, b, steps, base, turn);
          steps := steps + 1;
          if done {
            PlaceFound(key, node, left, right, a, b);
            return;
          }
          a := left.pos + 1;
        }
      }
      PlaceFound(key, node, left, right, a, b);
      PaidAtMatch(Spans(), steps, base, turn, a, b, root.pos);
    }

    lemma StartSearch(key: int, node: Node)
      requires Shape() && root != null && node !in nodes
      ensures Hanging(node, node, node, 0, |s|) && Outside(s, key, 0, |s|)
      ensures Paid(Spans(), 0, Credit(Spans()), Straight, 0, |s|)
    {
      StartHanging(node);
      SpansClosed();
      PaidAtStart(Spans());
    }

    twostate lemma AssembledSpans(c: (Node, Node, Node, int, int))
      requires var (node, left, right, a, b) := c; old(Hanging(node, left, right, a, b))
      requires Assembled(c.0, c.1, c.2) && Shape()
      ensures 0 <= root.pos < |s| && Assembles(old(Spans()), Spans(), root.pos)
      ensures old(Spans())[root.pos] == Span(c.3, c.4)
    {
      var (node, left, right, a, b) := c;
      assert old(Hung(root, left, right, a, b));
      forall i | 0 <= i < |s| && i != root.pos
        ensures Spans()[i].hi - Spans()[i].lo == Size(old(Spans())[i], root.pos)
      {
        assert s[i] in nodes && s[i].pos == i;
      }
    }

    // The end of a splay: put the trees together and settle the account opened at q.
    method Finish(node: Node, left: Node, right: Node, ghost a: int, ghost b: int, ghost q: seq<Span>, ghost steps: nat)
      requires Hanging(node, left, right, a, b) && 0 <= a <= root.pos < b && |q| == |s|
      requires PaidOff(Spans(), steps, Credit(q), a, b, root.pos)
      modifies nodes, node
      ensures Shape() && root == old(root) && root in nodes && root.pos == old(root.pos)
      ensures s == old(s) && nodes == old(nodes)
      ensures Affordable(q, Spans(), steps, 6 * Rank(|s|) + 2)
    {
      hide PaidOff, Affordable, Shape, Hanging, Assembled, Assembles, Closed, Credit, Rank;
      ghost var mid := Spans();
      Assemble(node, left, right, a, b);
      AssembledSpans((node, left, right, a, b));
      SpansClosed();
      AccessAffordable(q, mid, Spans(), steps, a, b, root.pos);
    }

    // SPLAY, with the number of rounds of its loop
    method Splay(key: int) returns (ghost steps: nat)
      requires Valid() && root != null
      modifies nodes, `root
      ensures Valid() && AtRoot(key) && s == old(s) && nodes == old(nodes)
      ensures Affordable(old(Spans()), Spans(), steps, 6 * Rank(|s|) + 2)
    {
      hide PaidOff, Affordable, Shape, Hanging, Outside, Ordered, Credit, Rank;
      ghost var q := Spans();
      var node := new Node(0);
      node.left := null;
      node.right := null;
      var left, right;
      ghost var a, b;
      left, right, a, b, steps := Search(key, node);
      ghost var p, top := root.pos, root;
      Finish(node, left, right, a, b, q, steps);
      assert AtRoot(key) by {
        assert root == top && root.pos == p && 0 <= root.pos < |s|;
        assert s[root.pos] == root;
        assert Outside(s, key, root.pos, root.pos + 1);
      }
    }

    // The loop of SPLAY_MINMAX.
    method Descend(comp: int, node: Node) returns (left: Node, right: Node, ghost a: int, ghost b: int,
        ghost steps: nat)
      requires Valid() && root != null && node !in nodes && comp != 0
      modifies nodes, node, `root
      ensures Hanging(node, left, right, a, b) && s == old(s) && nodes == old(nodes)
      ensures root != null && 0 <= a <= root.pos < b <= |s|
      ensures PaidOff(Spans(), steps, old(Credit(Spans())), a, b, root.pos)
      ensures root.pos == (if comp < 0 then 0 else |s| - 1) && s[root.pos] == root
    {
      hide Paid, PaidOff, Credit, Shape, Hanging;
      left, right, a, b, steps := node, node, 0, |s|, 0;
      ghost var base := Credit(Spans());
      StartSearch(0, node);
      while true
        invariant Hanging(node, left, right, a, b) && s == old(s) && nodes == old(nodes) && root != null
        invariant Paid(Spans(), steps, base, Straight, a, b)
        invariant if comp < 0 then a == 0 else b == |s|
        decreases b - a
      {
        var done;
        if comp < 0 {
          done, right := DescendLeft(node, left, right, a, b, steps, base);
          steps := steps + 1;
          if done {
            EndOfTree(node, left, right, a, b);
            return;
          }
          b := right.pos;
        } else {
          done, left := DescendRight(node, left, right, a, b, steps, base);
          steps := steps + 1;
          if done {
            EndOfTree(node, left, right, a, b);
            return;
          }
          a := left.pos + 1;
        }
      }
    }

    lemma EndOfTree(node: Node, left: Node, right: Node, a: int, b: int)
      requires Hanging(node, left, right, a, b)
      ensures root != null && 0 <= a <= root.pos < b <= |s| && s[root.pos] == root
      ensures root.left == null ==> root.pos == a
      ensures root.right == null ==> root.pos == b - 1
    {
      assert Hung(root, left, right, a, b);
      MiddleRoot(node, left, right, a, b);
    }

    // SPLAY_MINMAX, for the two values SPLAY_NEGINF and SPLAY_INF
    method SplayMinMax(comp: int) returns (ghost steps: nat)
      requires Valid() && root != null && comp != 0
      modifies nodes, `root
      ensures Valid() && s == old(s) && nodes == old(nodes) && s != []
      ensures root == if comp < 0 then s[0] else s[|s| - 1]
      ensures Affordable(old(Spans()), Spans(), steps, 6 * Rank(|s|) + 2)
    {
      hide PaidOff, Affordable, Shape, Hanging, Ordered, Credit, Rank;
      ghost var q := Spans();
      var node := new Node(0);
      node.left := null;
      node.right := null;
      var left, right;
      ghost var a, b;
      left, right, a, b, steps := Descend(comp, node);
      ghost var p := root.pos;
      Finish(node, left, right, a, b, q, steps);
      assert s[p] == root && root.pos == p && 0 <= p < |s|;
    }

    // SPLAY_FIND
    method Find(key: int) returns (r: Node?, ghost steps: nat)
      requires Valid()
      modifies nodes, `root
      ensures Valid() && s == old(s) && nodes == old(nodes)
      ensures Affordable(old(Spans()), Spans(), steps, 6 * Rank(|s|) + 2)
      ensures r != null ==> r in nodes && r.key == key && root == r
      ensures r == null ==> forall n | n in nodes :: n.key != key
    {
      if root == null {
        RootOrAbsent(key);
        return null, 0;
      }
      steps := Splay(key);
      RootOrAbsent(key);
      if key == root.key {
        return root, steps;
      }
      return null, steps;
    }

    lemma RootOrAbsent(key: int)
      requires Valid() && (root == null || AtRoot(key))
      ensures root == null || key != root.key ==> forall n | n in nodes :: n.key != key
    {
      forall n | n in nodes && n != root
        ensures n.key != key
      {
        assert Linked(n, s, nodes);
      }
    }

    // SPLAY_NEXT, for an element of the tree
    method Next(elm: Node) returns (r: Node?)
      requires Valid() && elm in nodes
      modifies nodes, `root
      ensures Valid() && 0 <= elm.pos < |s| && s[elm.pos] == elm
      ensures r == if elm.pos + 1 < |s| then s[elm.pos + 1] else null
    {
      hide Affordable, Ordered;
      assert Linked(elm, s, nodes);
      var _ := Splay(elm.key);
      RootOrAbsent(elm.key);
      assert Linked(elm, s, nodes) && Linked(root, s, nodes);
      assert root == elm;
      if elm.right == null {
        return null;
      }
      r := elm.right;
      assert Linked(r, s, nodes);
      while r.left != null
        invariant r in nodes && Linked(r, s, nodes) && r.lo == elm.pos + 1
        modifies {}
        decreases r.hi
      {
        r := r.left;
        assert Linked(r, s, nodes);
      }
    }

    // SPLAY_MIN and SPLAY_MAX
    method MinMax(comp: int) returns (r: Node?, ghost steps: nat)
      requires Valid() && comp != 0
      modifies nodes, `root
      ensures Valid() && s == old(s) && nodes == old(nodes)
      ensures r == if s == [] then null else if comp < 0 then s[0] else s[|s| - 1]
      ensures Affordable(old(Spans()), Spans(), steps, 6 * Rank(|s|) + 2)
    {
      if root == null {
        return null, 0;
      }
      steps := SplayMinMax(comp);
      return root, steps;
    }

    // SPLAY_FOREACH: the walk reshapes the tree at every step and still meets every
    // node once, in order.
    method ForEach() returns (visited: seq<Node>)
      requires Valid()
      modifies nodes, `root
      ensures Valid() && visited == s
    {
      visited := [];
      var x, _ := MinMax(-1);
      while x != null
        invariant Valid() && |visited| <= |s| && visited == s[..|visited|]
        invariant x == if |visited| < |s| then s[|visited|] else null
        decreases |s| - |visited|
      {
        visited := visited + [x];
        x := Next(x);
      }
    }

    method InsertFirst(elm: Node)
      requires Shape() && root == null
      modifies this, elm
      ensures Valid() && nodes == old(nodes) + {elm} && s == [elm] && root == elm && elm.pos == 0
      ensures Spans() == [Span(0, 1)] && (old(s) == [] ==> s == With(old(s), 0, elm))
    {
      elm.left := null;
      elm.right := null;
      elm.pos, elm.lo, elm.hi, elm.up := 0, 0, 1, null;
      s := [elm];
      nodes := {elm};
      root := elm;
    }

    // The new node above the splayed root, on the side where its key belongs.
    method InsertAbove(elm: Node)
      requires Valid() && root != null && AtRoot(elm.key) && elm.key != root.key && elm !in nodes
      modifies this, nodes, elm
      ensures Valid() && root == elm && nodes == old(nodes) + {elm}
      ensures 0 <= elm.pos <= |old(s)| && s == With(old(s), elm.pos, elm)
      ensures Grows(old(Spans()), Spans(), elm.pos)
    {
      hide Shape, Grows;
      if elm.key < root.key {
        OrderedWith(s, root.pos, elm);
        AddAboveLeft(elm);
      } else {
        OrderedWith(s, root.pos + 1, elm);
        AddAboveRight(elm);
      }
    }

    // SPLAY_INSERT
    method Insert(elm: Node) returns (r: Node?, ghost steps: nat)
      requires Valid() && elm !in nodes
      modifies this, nodes, elm
      ensures Valid()
      ensures r != null ==> r in nodes && r.key == elm.key && s == old(s) && nodes == old(nodes) && root == r
      ensures r == null ==> forall n | n in old(nodes) :: n.key != elm.key
      ensures r == null ==> nodes == old(nodes) + {elm} && root == elm
      ensures r == null ==> 0 <= elm.pos <= |old(s)| && s == With(old(s), elm.pos, elm)
      ensures Affordable(old(Spans()), Spans(), steps, 8 * Rank(|s|) + 2)
    {
      hide Shape, Affordable, Grows, With, Ordered, Closed, Outside, Rank;
      if root == null {
        RootOrAbsent(elm.key);
        EmptyTree();
        InsertFirst(elm);
        FirstAffordable(old(Spans()), Spans());
        return null, 0;
      }
      steps := Splay(elm.key);
      RootOrAbsent(elm.key);
      ghost var q := Spans();
      if elm.key == root.key {
        AffordMore(old(Spans()), q, steps, 6 * Rank(|s|) + 2, 8 * Rank(|s|) + 2);
        return root, steps;
      }
      SpansClosed();
      InsertAbove(elm);
      SpansClosed();
      GrowthAffordable(old(Spans()), q, Spans(), elm.pos, steps);
      return null, steps;
    }

    lemma EmptyTree()
      requires Shape() && root == null
      ensures s == [] && nodes == {}
    {
    }

    // tmp is the subtree over the nodes ns that covers all of t after index k.
    static ghost predicate Suffix(tmp: Node?, t: seq<Node>, k: int, ns: set<Node>)
      reads ns
    {
      && 0 <= k < |t|
      && (forall n {:trigger Linked(n, t, ns)} | n in ns :: Linked(n, t, ns) && k < n.lo)
      && (forall i | k < i < |t| :: t[i] in ns && t[i].pos == i)
      && (tmp == null ==> k + 1 == |t| && ns == {})
      && (tmp != null ==> tmp in ns && tmp.lo == k + 1 && tmp.hi == |t|)
    }

    static ghost function After(ns: set<Node>, k: int): set<Node>
      reads ns
    {
      set n | n in ns && k < n.pos
    }

    lemma SuffixOfRoot()
      requires Shape() && root != null
      ensures 0 <= root.pos < |s| && Suffix(root.right, s, root.pos, After(nodes, root.pos))
      ensures forall i | root.pos < i < |s| :: s[i] in After(nodes, root.pos)
    {
      PartedAtRoot();
      assert Linked(root, s, nodes);
      var ns := After(nodes, root.pos);
      forall n {:trigger Linked(n, s, ns)} | n in ns
        ensures Linked(n, s, ns) && root.pos < n.lo
      {
        assert Linked(n, s, nodes);
        assert n.left != null ==> Linked(n.left, s, nodes);
        assert n.right != null ==> Linked(n.right, s, nodes);
      }
      assert root.right != null ==> Linked(root.right, s, nodes);
      forall n | n in nodes
        ensures n.pos < |s|
      {
        assert Linked(n, s, nodes);
      }
      assert root.right == null ==> ns == {};
    }

    // Cut the tree down to the root's left subtree.
    method CutLeft()
      requires Shape() && root != null && root.left != null
      modifies this, root.left`up
      ensures Shape() && root == old(root.left) && 0 <= old(root.pos) < |old(s)|
      ensures s == old(s)[..old(root.pos)] && nodes == old(nodes - {root} - After(nodes, root.pos))
      ensures Spans() == old(Spans())[..old(root.pos)]
    {
      PartedAtRoot();
      assert Linked(root, s, nodes) && Linked(root.left, s, nodes);
      ghost var top: Node, t, all := root, s, nodes;
      root := root.left;
      root.up := null;
      s := t[..top.pos];
      nodes := all - {top} - After(all, top.pos);
      CutLeftShape(top);
    }

    twostate lemma CutLeftShape(top: Node)
      requires old(Shape() && Parted() && root.left != null && 0 <= root.pos < |s|) && top == old(root)
      requires root == old(root.left) && root.up == null
      requires s == old(s)[..old(root.pos)] && nodes == old(nodes - {root} - After(nodes, root.pos))
      requires forall n | n in old(nodes) ::
        && n.left == old(n.left) && n.right == old(n.right)
        && n.pos == old(n.pos) && n.lo == old(n.lo) && n.hi == old(n.hi) && (n != root ==> n.up == old(n.up))
      ensures Shape()
    {
      assert old(Linked(root, s, nodes)) && old(Linked(root.left, s, nodes));
      forall n {:trigger Linked(n, s, nodes)} | n in nodes
        ensures Linked(n, s, nodes)
      {
        assert old(Linked(n, s, nodes));
        assert old(n.left != null ==> Linked(n.left, s, nodes));
        assert old(n.right != null ==> Linked(n.right, s, nodes));
      }
    }

    // Move the index fields of the nodes ns one place down.
    static ghost method ShiftDown(ns: set<Node>)
      modifies ns`pos, ns`lo, ns`hi
      ensures forall n | n in ns :: n.pos == old(n.pos) - 1 && n.lo == old(n.lo) - 1 && n.hi == old(n.hi) - 1
    {
      forall n | n in ns {
        n.pos := n.pos - 1;
      }
      forall n | n in ns {
        n.lo := n.lo - 1;
      }
      forall n | n in ns {
        n.hi := n.hi - 1;
      }
    }

    // Hang the saved right subtree under a root that has no right child.
    method Join(tmp: Node?, ghost t: seq<Node>, ghost k: int, ghost rest: set<Node>)
      requires Shape() && root != null && |s| == k < |t| && s == t[..k] && root.pos == k - 1
      requires Suffix(tmp, t, k, rest) && rest !! nodes
      modifies this, nodes, rest
      ensures Shape() && s == Without(t, k) && nodes == old(nodes) + rest
      ensures Joins(old(Spans()), old(Widths(t)), Spans(), k)
    {
      assert Linked(root, s, nodes);
      root.right := tmp;
      JoinSpans(tmp, |t| - 1, rest);
      s := t[..k] + t[k + 1..];
      nodes := nodes + rest;
      JoinedShape((tmp, t, k, rest));
      JoinedSpans((tmp, t, k, rest));
    }

    // The sizes of the subtrees at the nodes of t.
    static ghost function Widths(t: seq<Node>): (w: seq<int>)
      reads t
      ensures |w| == |t| && forall i | 0 <= i < |t| :: w[i] == t[i].hi - t[i].lo
    {
      seq(|t|, i requires 0 <= i < |t| reads t => t[i].hi - t[i].lo)
    }

    twostate lemma JoinedSpans(c: (Node?, seq<Node>, int, set<Node>))
      requires var (tmp, t, k, rest) := c;
        && old(Shape() && root != null && k == |s| < |t| && root.pos == k - 1 && s == t[..k])
      requires var (tmp, t, k, rest) := c; root == old(root) && root in old(nodes) && s == t[..k] + t[k + 1..]
      requires root != null && root.hi == |c.1| - 1 && root.lo == old(root.lo)
      requires forall i | c.2 < i < |c.1| :: c.1[i] in c.3
      requires forall n | n in old(nodes) && n != root :: n.lo == old(n.lo) && n.hi == old(n.hi)
      requires forall n | n in c.3 :: n.lo == old(n.lo) - 1 && n.hi == old(n.hi) - 1
      ensures Joins(old(Spans()), old(Widths(c.1)), Spans(), c.2)
    {
      var (tmp, t, k, rest) := c;
      assert old(Linked(root, s, nodes));
      forall i | 0 <= i < k - 1
        ensures Spans()[i] == old(Spans())[i]
      {
        assert old(s[i] in nodes && s[i].pos == i) && s[i] == old(s)[i];
      }
      forall i | k <= i < |s|
        ensures Spans()[i].hi - Spans()[i].lo == old(Widths(t))[i + 1]
      {
        assert s[i] == t[i + 1];
      }
    }

    ghost method JoinSpans(tmp: Node?, h: int, rest: set<Node>)
      requires root != null && (tmp == null || tmp in rest) && root !in rest
      modifies rest`pos, rest`lo, rest`hi, rest`up, root`hi
      ensures root.hi == h
      ensures forall n | n in rest :: n.pos == old(n.pos) - 1 && n.lo == old(n.lo) - 1 && n.hi == old(n.hi) - 1
      ensures forall n | n in rest :: n.up == (if n == tmp then root else old(n.up))
    {
      if tmp != null {
        tmp.up := root;
      }
      root.hi := h;
      ShiftDown(rest);
    }

    twostate lemma JoinedShape(c: (Node?, seq<Node>, int, set<Node>))
      requires var (tmp, t, k, rest) := c;
        old(Shape() && root != null && k == |s| && root.pos == k - 1)
      requires var (tmp, t, k, rest) := c; old(Suffix(tmp, t, k, rest) && rest !! nodes && s == t[..k])
      requires var (tmp, t, k, rest) := c;
        && root == old(root) && root in old(nodes) && s == t[..k] + t[k + 1..] && nodes == old(nodes) + rest
      requires var (tmp, t, k, rest) := c;
        && root.right == tmp && root.hi == |t| - 1 && root.lo == old(root.lo) && root.left == old(root.left)
      requires forall n | n in old(nodes) ::
        && n.left == old(n.left) && n.pos == old(n.pos) && n.lo == old(n.lo) && n.up == old(n.up)
        && (n != root ==> n.right == old(n.right) && n.hi == old(n.hi))
      requires var (tmp, t, k, rest) := c; forall n | n in rest ::
        && n.left == old(n.left) && n.right == old(n.right)
        && n.pos == old(n.pos) - 1 && n.lo == old(n.lo) - 1 && n.hi == old(n.hi) - 1
        && n.up == (if n == tmp then root else old(n.up))
      ensures Shape()
    {
      var (tmp, t, k, rest) := c;
      assert old(Linked(root, s, nodes));
      assert tmp != null ==> old(Linked(tmp, t, rest));
      forall n {:trigger Linked(n, s, nodes)} | n in nodes
        ensures Linked(n, s, nodes)
      {
        if n in rest {
          assert old(Linked(n, t, rest));
        } else {
          assert old(Linked(n, s, nodes));
        }
      }
    }

    // Without a left subtree, the right one is all that remains.
    method DropRoot()
      requires Shape() && root != null && root.left == null
      modifies this, nodes
      ensures Shape() && old(s) != [] && s == Without(old(s), 0) && nodes == old(nodes - {root})
      ensures old(s)[0] == old(root)
      ensures Drops(old(Spans()), Spans())
    {
      SuffixOfRoot();
      assert Linked(root, s, nodes);
      ghost var t, rest := s, After(nodes, 0);
      assert nodes == rest + {root} by {
        PartedAtRoot();
        forall n | n in nodes
          ensures n == root || n in rest
        {
          assert Linked(n, s, nodes);
        }
      }
      root := root.right;
      if root != null {
        root.up := null;
      }
      ShiftDown(rest);
      s := t[1..];
      nodes := rest;
      DroppedShape((t, rest));
      assert t[..0] + t[1..] == t[1..];
    }

    twostate lemma DroppedShape(c: (seq<Node>, set<Node>))
      requires var (t, rest) := c;
        && old(root != null && root.pos == 0 && Suffix(root.right, t, 0, rest)) && s == t[1..] && nodes == rest
      requires root == old(root.right) && (root != null ==> root.up == null)
      requires var (t, rest) := c; forall n | n in rest ::
        && n.left == old(n.left) && n.right == old(n.right) && (n != root ==> n.up == old(n.up))
        && n.pos == old(n.pos) - 1 && n.lo == old(n.lo) - 1 && n.hi == old(n.hi) - 1
      ensures Shape()
    {
      var (t, rest) := c;
      forall n {:trigger Linked(n, s, nodes)} | n in nodes
        ensures Linked(n, s, nodes)
      {
        assert old(Linked(n, t, rest));
      }
    }

    lemma RootIsWhole()
      requires Shape() && root != null
      ensures root in nodes && 0 <= root.pos < |s| && s[root.pos] == root && root.lo == 0 && root.hi == |s|
      ensures root.left == null ==> root.pos == 0
      ensures root.left != null ==> root.left in nodes && root.left.pos < root.pos && root.pos > 0
    {
      assert Linked(root, s, nodes);
      assert root.left != null ==> Linked(root.left, s, nodes);
    }

    // A splay for a key beyond the last one brings the last node to the root.
    lemma LastAtRoot(key: int)
      requires AtRoot(key) && forall i | 0 <= i < |s| :: s[i].key < key
      ensures root != null && root.pos == |s| - 1
    {
      assert s[|s| - 1].key < key;
    }

    // Cut the tree down to the root's left subtree and splay that for the root's key; as
    // every key there is smaller, it gets a root without right child.
    method SplayLeftPart(key: int, ghost rest: set<Node>) returns (ghost steps: nat)
      requires Valid() && root != null && root.key == key && root.left != null
      requires rest == After(nodes, root.pos)
      modifies this, nodes
      ensures Valid() && 0 < old(root.pos) < |old(s)| && s == old(s)[..old(root.pos)] && rest !! nodes
      ensures nodes == old(nodes) - {old(root)} - rest && unchanged(rest) && old(root) !in rest
      ensures root != null && root.pos == old(root.pos) - 1
      ensures Affordable(old(Spans())[..old(root.pos)], Spans(), steps, 6 * Rank(old(root.pos)) + 2)
    {
      hide Affordable, Shape, Closed, AtRoot;
      RootIsWhole();
      OrderedParts(s, root.pos);
      ghost var top: Node := root;
      CutLeft();
      assert nodes == old(nodes) - {top} - rest;
      steps := Splay(key);
      LastAtRoot(key);
    }

    // Hang the saved right subtree back and settle the account.
    method Rejoin(tmp: Node?, ghost t: seq<Node>, ghost k: int, ghost rest: set<Node>, ghost q: seq<Span>,
        ghost steps: nat)
      requires Shape() && root != null && |s| == k < |t| && s == t[..k] && root.pos == k - 1
      requires Suffix(tmp, t, k, rest) && rest !! nodes
      requires Closed(q) && |q| == |t| && q[k] == Span(0, |q|)
      requires forall i | k < i < |t| :: t[i].hi - t[i].lo == q[i].hi - q[i].lo
      requires Affordable(q[..k], Spans(), steps, 6 * Rank(k) + 2)
      modifies this, nodes, rest
      ensures Shape() && s == Without(t, k) && nodes == old(nodes) + rest
      ensures Affordable(q, Spans(), steps, 6 * Rank(|q|) + 2)
    {
      hide Affordable, Joins, Suffix, Shape, Closed, Without, Rank;
      SpansClosed();
      ghost var after, w := Spans(), Widths(t);
      Join(tmp, t, k, rest);
      SpansClosed();
      ReplacementAffordable(q, after, w, Spans(), k, steps);
    }

    // Replace the root by its two subtrees: the second splay loses nothing of the right one.
    method RemoveRoot(key: int) returns (ghost steps: nat)
      requires Valid() && root != null && root.key == key && root.left != null
      modifies this, nodes
      ensures Valid() && 0 <= old(root.pos) < |old(s)| && old(s)[old(root.pos)] == old(root)
      ensures s == Without(old(s), old(root.pos)) && nodes == old(nodes) - {old(root)}
      ensures Affordable(old(Spans()), Spans(), steps, 6 * Rank(|old(s)|) + 2)
    {
      hide Affordable, Suffix, Shape, Closed, Ordered, Rank, Without;
      RootIsWhole();
      SuffixOfRoot();
      SpansClosed();
      OrderedParts(s, root.pos);
      ghost var t, k, q := s, root.pos, Spans();
      ghost var top, all, rest := root, nodes, After(nodes, root.pos);
      assert rest <= all && top !in rest;
      var tmp := root.right;
      steps := SplayLeftPart(key, rest);
      forall i | k < i < |t|
        ensures t[i].hi - t[i].lo == q[i].hi - q[i].lo
      {
        assert t[i] in rest;
      }
      Rejoin(tmp, t, k, rest, q, steps);
      assert nodes == all - {top};
    }

    // SPLAY_REMOVE
    method Remove(key: int) returns (removed: bool, ghost steps: nat)
      requires Valid()
      modifies this, nodes
      ensures Valid()
      ensures !removed ==> s == old(s) && nodes == old(nodes) && forall n | n in nodes :: n.key != key
      ensures removed ==> exists k | 0 <= k < |old(s)| ::
        old(s)[k].key == key && s == Without(old(s), k) && nodes == old(nodes) - {old(s)[k]}
      ensures Affordable(old(Spans()), Spans(), steps, 12 * Rank(|old(s)|) + 4)
    {
      hide Affordable, Shape, Ordered, Outside, Rank, Without;
      if root == null {
        RootOrAbsent(key);
        NoSteps(Spans(), 12 * Rank(|s|) + 4);
        return false, 0;
      }
      steps := Splay(key);
      RootOrAbsent(key);
      ghost var q, k, t := Spans(), root.pos, s;
      SplayTwice(old(Spans()), q, q, steps, 0);
      if key != root.key {
        return false, steps;
      }
      assert t[k] == root && t[k].key == key;
      removed := true;
      ghost var more := RemoveAtRoot(key);
      assert t == old(s) && s == Without(old(s), k);
      SplayTwice(old(Spans()), q, Spans(), steps, more);
      steps := steps + more;
    }

    // The splayed root has the key: take it out.
    method RemoveAtRoot(key: int) returns (ghost steps: nat)
      requires Valid() && root != null && root.key == key
      modifies this, nodes
      ensures Valid() && 0 <= old(root.pos) < |old(s)| && old(s)[old(root.pos)] == old(root)
      ensures s == Without(old(s), old(root.pos)) && nodes == old(nodes) - {old(root)}
      ensures Affordable(old(Spans()), Spans(), steps, 6 * Rank(|old(s)|) + 2)
    {
      if root.left == null {
        RemoveFirst();
        steps := 0;
      } else {
        steps := RemoveRoot(key);
      }
    }

    method RemoveFirst()
      requires Valid() && root != null && root.left == null
      modifies this, nodes
      ensures Valid() && old(root.pos) == 0 < |old(s)| && old(s)[0] == old(root)
      ensures s == Without(old(s), 0) && nodes == old(nodes) - {old(root)}
      ensures Affordable(old(Spans()), Spans(), 0, 6 * Rank(|old(s)|) + 2)
    {
      hide Affordable, Shape, Closed, Ordered, Rank, Drops, Spans, Without;
      RootIsWhole();
      OrderedParts(s, root.pos);
      SpansClosed();
      DropRoot();
      SpansClosed();
      DropAffordable(old(Spans()), Spans());
    }

    lemma KeysAreThere(key: int)
      requires Valid()
      ensures key in KeysOf(s) <==> exists n :: n in nodes && n.key == key
    {
      forall n | n in nodes ensures n.key in KeysOf(s) {
        assert Linked(n, s, nodes);
      }
      if key in KeysOf(s) {
        var i :| 0 <= i < |s| && s[i].key == key;
        assert s[i] in nodes;
      }
    }

    method PerformSeek(key: int) returns (answer: Option<int>, ghost steps: nat)
      requires Valid()
      modifies nodes, `root
      ensures Valid() && s == old(s) && nodes == old(nodes)
      ensures Answers(KeysOf(s), Seek(key), answer)
      ensures Affordable(old(Spans()), Spans(), steps, 6 * Rank(|s|) + 2)
    {
      hide Affordable, Shape, Ordered, Rank, KeysOf;
      var r;
      r, steps := Find(key);
      KeysAreThere(key);
      answer := if r == null then None else Some(r.key);
    }

    method PerformAdd(key: int) returns (answer: Option<int>, ghost steps: nat)
      requires Valid()
      modifies this, nodes
      ensures Valid() && fresh(nodes - old(nodes)) && |s| <= |old(s)| + 1
      ensures KeysOf(s) == KeysAfter(KeysOf(old(s)), Add(key)) && Answers(KeysOf(old(s)), Add(key), answer)
      ensures Affordable(old(Spans()), Spans(), steps, 8 * Rank(|s|) + 2)
    {
      hide Affordable, Shape, Ordered, Rank, KeysOf, With;
      KeysAreThere(key);
      var elm := new Node(key);
      var r;
      r, steps := Insert(elm);
      if r == null {
        KeysOfWith(old(s), elm.pos, elm);
        SizeOfWith(old(s), elm.pos, elm);
        return None, steps;
      }
      return Some(r.key), steps;
    }

    method PerformTake(key: int) returns (answer: Option<int>, ghost steps: nat)
      requires Valid()
      modifies this, nodes
      ensures Valid() && nodes <= old(nodes) && |s| <= |old(s)|
      ensures KeysOf(s) == KeysAfter(KeysOf(old(s)), Take(key)) && Answers(KeysOf(old(s)), Take(key), answer)
      ensures Affordable(old(Spans()), Spans(), steps, 12 * Rank(|old(s)|) + 4)
    {
      hide Affordable, Shape, Ordered, Rank, KeysOf, Without;
      KeysAreThere(key);
      ghost var t := s;
      var removed;
      removed, steps := Remove(key);
      if !removed {
        return None, steps;
      }
      ghost var k :| 0 <= k < |t| && t[k].key == key && s == Without(t, k) && nodes == old(nodes) - {t[k]};
      KeysOfWithout(t, k);
      SizeOfWithout(t, k);
      KeyIn(t, k);
      return Some(key), steps;
    }

    method PerformEnd(comp: Direction) returns (answer: Option<int>, ghost steps: nat)
      requires Valid()
      modifies nodes, `root
      ensures Valid() && s == old(s) && nodes == old(nodes)
      ensures Answers(KeysOf(s), End(comp), answer)
      ensures Affordable(old(Spans()), Spans(), steps, 6 * Rank(|s|) + 2)
    {
      hide Affordable, Shape, Ordered, Rank, KeysOf, Answers;
      KeysOfEnds(s, comp);
      var r;
      r, steps := MinMax(comp);
      answer := if r == null then None else Some(r.key);
    }

    // One operation, on a tree that never has more than n nodes: it does to the set of keys
    // what it should, answers rightly, and has the amortized cost.
    method Perform(op: Operation, ghost n: nat) returns (answer: Option<int>, ghost steps: nat)
      requires Valid() && |s| + (if op.Add? then 1 else 0) <= n
      modifies this, nodes
      ensures Valid() && fresh(nodes - old(nodes))
      ensures |s| <= |old(s)| + (if op.Add? then 1 else 0)
      ensures KeysOf(s) == KeysAfter(KeysOf(old(s)), op) && Answers(KeysOf(old(s)), op, answer)
      ensures Affordable(old(Spans()), Spans(), steps, 12 * Rank(n) + 4)
    {
      hide Affordable, Shape, Ordered, Rank, Outside, KeysOf, Answers;
      ghost var q := Spans();
      match op
      case Seek(key) =>
        answer, steps := PerformSeek(key);
        RankMonotone(|q|, n);
        AffordMore(q, Spans(), steps, 6 * Rank(|q|) + 2, 12 * Rank(n) + 4);
      case Add(key) =>
        answer, steps := PerformAdd(key);
        RankMonotone(|s|, n);
        AffordMore(q, Spans(), steps, 8 * Rank(|s|) + 2, 12 * Rank(n) + 4);
      case Take(key) =>
        answer, steps := PerformTake(key);
        RankMonotone(|q|, n);
        AffordMore(q, Spans(), steps, 12 * Rank(|q|) + 4, 12 * Rank(n) + 4);
      case End(comp) =>
        answer, steps := PerformEnd(comp);
        RankMonotone(|q|, n);
        AffordMore(q, Spans(), steps, 6 * Rank(|q|) + 2, 12 * Rank(n) + 4);
    }

    // The Balance Theorem: from the empty tree, any m operations with n insertions among
    // them take at most m * (12 lg n + 4) rounds of the splay loop.  Every one of them
    // answers as on a set of keys, which is what the tree holds in the end, in order.
    method PerformAll(ops: seq<Operation>) returns (answers: seq<Option<int>>, ghost steps: nat)
      requires Valid() && s == []
      modifies this
      ensures Valid() && fresh(nodes) && |s| <= Inserts(ops)
      ensures KeysOf(s) == KeysAfterAll(ops) && |answers| == |ops|
      ensures forall i | 0 <= i < |ops| :: Answers(KeysAfterAll(ops[..i]), ops[i], answers[i])
      ensures steps <= |ops| * (12 * Log2(Inserts(ops)) + 4)
    {
      hide Shape, Ordered, Answers, KeysOf, KeysAfter, KeysAfterAll, Inserts, Valid;
      NoNodes();
      NoKeys(ops);
      ghost var n := Inserts(ops);
      ghost var cost := 12 * Rank(n) + 4;
      steps := 0;
      answers := [];
      for i := 0 to |ops|
        invariant Valid() && fresh(nodes) && |s| <= Inserts(ops[..i])
        invariant KeysOf(s) == KeysAfterAll(ops[..i]) && |answers| == i
        invariant forall j | 0 <= j < i :: Answers(KeysAfterAll(ops[..j]), ops[j], answers[j])
        invariant steps + 2 * Potential(Spans(), 0) <= i * cost
      {
        InsertsOfPrefix(ops, i);
        KeysAfterPrefix(ops, i);
        var answer;
        ghost var more;
        answer, more := Perform(ops[i], n);
        answers := answers + [answer];
        steps := steps + more;
        OneMore(i, cost);
      }
      assert ops[..|ops|] == ops;
    }

    lemma NoNodes()
      requires Valid() && s == []
      ensures nodes == {} && Spans() == [] && Potential(Spans(), 0) == 0
    {
      if root != null {
        RootIsWhole();
      }
    }
  }
}
