// The cost of splaying: the rounds of the splay loop against a potential, the sum of the
// ranks of all subtree sizes.
module SplayCosts {
  import opened Powers

  // The rank of a subtree of the given size is lg of it, rounded down.
  ghost function Rank(size: int): nat {
    if size <= 0 then 0 else Log2(size)
  }

  lemma RankMonotone(x: int, y: int)
    requires x <= y
    ensures Rank(x) <= Rank(y)
  {
    if x > 0 {
      Log2Monotone(x, y);
    }
  }

  // Of two parts of a whole, one has a smaller rank.
  lemma RankParts(x: int, y: int, z: int)
    requires x > 0 && y > 0 && x + y <= z
    ensures Rank(x) + Rank(y) <= 2 * Rank(z) - 1
  {
    Log2Parts(x, y, z);
  }

  ghost function Weight(q: seq<int>): nat {
    if q == [] then 0 else Weight(q[..|q| - 1]) + Rank(q[|q| - 1])
  }

  lemma {:induction false} WeightUpdate(q: seq<int>, k: nat, v: int)
    requires k < |q|
    ensures Weight(q[k := v]) == Weight(q) - Rank(q[k]) + Rank(v)
  {
    var r, last := q[k := v], |q| - 1;
    if k == last {
      assert r[..last] == q[..last];
    } else {
      WeightUpdate(q[..last], k, v);
      assert r[..last] == q[..last][k := v];
    }
  }

  lemma {:induction false} WeightConcat(q: seq<int>, r: seq<int>)
    ensures Weight(q + r) == Weight(q) + Weight(r)
  {
    if r == [] {
      assert q + r == q;
    } else {
      WeightConcat(q, r[..|r| - 1]);
      assert (q + r)[..|q + r| - 1] == q + r[..|r| - 1];
    }
  }

  lemma WeightSplit(q: seq<int>, k: nat)
    requires k < |q|
    ensures Weight(q) == Weight(q[..k]) + Rank(q[k]) + Weight(q[k + 1..])
  {
    hide Rank;
    WeightLast(q[..k], q[k]);
    WeightConcat(q[..k] + [q[k]], q[k + 1..]);
    assert q == q[..k] + [q[k]] + q[k + 1..];
  }

  lemma WeightLast(q: seq<int>, x: int)
    ensures Weight(q + [x]) == Weight(q) + Rank(x)
  {
    assert (q + [x])[..|q|] == q;
  }

  lemma {:induction false} WeightMonotone(q: seq<int>, r: seq<int>)
    requires |q| == |r| && forall i | 0 <= i < |q| :: q[i] <= r[i]
    ensures Weight(q) <= Weight(r)
  {
    if q != [] {
      WeightMonotone(q[..|q| - 1], r[..|r| - 1]);
      RankMonotone(q[|q| - 1], r[|r| - 1]);
    }
  }

  // The half-open interval of the indices below a node; OPEN marks the open end of a
  // hanging tree's inner spine.
  datatype Span = Span(lo: int, hi: int)

  const OPEN := -1

  // The size of a subtree in the tree that is assembled when the root is at index p.
  ghost function Size(x: Span, p: int): int {
    (if x.hi == OPEN then p else x.hi) - (if x.lo == OPEN then p + 1 else x.lo)
  }

  ghost function Sizes(q: seq<Span>, p: int): seq<int> {
    seq(|q|, i requires 0 <= i < |q| => Size(q[i], p))
  }

  ghost function Potential(q: seq<Span>, p: int): nat {
    Weight(Sizes(q, p))
  }

  ghost predicate Closed(q: seq<Span>) {
    forall i | 0 <= i < |q| :: q[i].lo != OPEN && q[i].hi != OPEN
  }

  lemma PotentialClosed(q: seq<Span>, p: int)
    requires Closed(q)
    ensures Potential(q, p) == Potential(q, 0)
  {
    assert Sizes(q, p) == Sizes(q, 0);
  }

  lemma PotentialUpdate(q: seq<Span>, k: nat, x: Span, p: int)
    requires k < |q|
    ensures Potential(q[k := x], p) == Potential(q, p) - Rank(Size(q[k], p)) + Rank(Size(x, p))
  {
    WeightUpdate(Sizes(q, p), k, Size(x, p));
    assert Sizes(q[k := x], p) == Sizes(q, p)[k := Size(x, p)];
  }

  lemma TwoUpdates(q: seq<Span>, k: nat, x: Span, l: nat, y: Span, p: int)
    requires k < |q| && l < |q| && k != l
    ensures Potential(q[k := x][l := y], p) ==
              Potential(q, p) - Rank(Size(q[k], p)) - Rank(Size(q[l], p)) + Rank(Size(x, p)) + Rank(Size(y, p))
  {
    hide Potential, Rank;
    PotentialUpdate(q, k, x, p);
    PotentialUpdate(q[k := x], l, y, p);
  }

  lemma UpdatedTwice(q: seq<Span>, k: nat, x: Span, l: nat, y: Span, z: Span)
    requires k < |q| && l < |q|
    ensures q[k := x][l := y][l := z] == q[k := x][l := z]
  {
  }

  // The potential rises by at most d, wherever in [a, b) the root will be.
  ghost predicate Rises(q: seq<Span>, r: seq<Span>, a: int, b: int, d: int) {
    forall p | a <= p < b :: Potential(r, p) <= Potential(q, p) + d
  }

  lemma NoRise(q: seq<Span>, a: int, b: int)
    ensures Rises(q, q, a, b, Rank(b - a))
  {
  }

  // A rotation at the root of the middle tree [a, b): top falls, tmp rises.
  lemma RotationRises(q: seq<Span>, r: seq<Span>, a: int, b: int, top: int, tmp: int, x: Span)
    requires 0 <= a && 0 <= b && 0 <= top < |q| && 0 <= tmp < |q| && top != tmp
    requires q[top] == Span(a, b) && a <= x.lo <= x.hi <= b
    requires r == q[top := x][tmp := Span(a, b)]
    ensures Rises(q, r, a, b, Rank(b - a))
  {
    forall p | a <= p < b
      ensures Potential(r, p) <= Potential(q, p) + Rank(b - a)
    {
      TwoUpdates(q, top, x, tmp, Span(a, b), p);
      RankMonotone(x.hi - x.lo, b - a);
    }
  }

  // A rotation and a link to the right tree: tmp, the old root's left child, goes with
  // the old root top below it, and [a, tmp) is left of the middle tree [a, b).
  lemma RotateAndLinkLeftRises(q: seq<Span>, mid: seq<Span>, r: seq<Span>, a: int, b: int, top: int, tmp: int)
    requires 0 <= a < tmp < top < b <= |q|
    requires q[top] == Span(a, b) && q[tmp] == Span(a, top)
    requires mid == q[top := Span(tmp + 1, b)][tmp := Span(a, b)] && r == mid[tmp := Span(OPEN, b)]
    ensures Rises(q, r, a, tmp, 2 * (Rank(b - a) - Rank(tmp - a)) - 1)
  {
    hide Potential, Rank;
    forall p | a <= p < tmp
      ensures Potential(r, p) <= Potential(q, p) + 2 * (Rank(b - a) - Rank(tmp - a)) - 1
    {
      UpdatedTwice(q, top, Span(tmp + 1, b), tmp, Span(a, b), Span(OPEN, b));
      TwoUpdates(q, top, Span(tmp + 1, b), tmp, Span(OPEN, b), p);
      RankMonotone(b - p - 1, b - a);
      RankMonotone(tmp - a, top - a);
      RankParts(b - tmp - 1, tmp - a, b - a);
    }
  }

  lemma RotateAndLinkRightRises(q: seq<Span>, mid: seq<Span>, r: seq<Span>, a: int, b: int, top: int, tmp: int)
    requires 0 <= a <= top < tmp < b - 1 < |q|
    requires q[top] == Span(a, b) && q[tmp] == Span(top + 1, b)
    requires mid == q[top := Span(a, tmp)][tmp := Span(a, b)] && r == mid[tmp := Span(a, OPEN)]
    ensures Rises(q, r, tmp + 1, b, 2 * (Rank(b - a) - Rank(b - tmp - 1)) - 1)
  {
    hide Potential, Rank;
    forall p | tmp + 1 <= p < b
      ensures Potential(r, p) <= Potential(q, p) + 2 * (Rank(b - a) - Rank(b - tmp - 1)) - 1
    {
      UpdatedTwice(q, top, Span(a, tmp), tmp, Span(a, b), Span(a, OPEN));
      TwoUpdates(q, top, Span(a, tmp), tmp, Span(a, OPEN), p);
      RankMonotone(p - a, b - a);
      RankMonotone(b - tmp - 1, b - top - 1);
      RankParts(tmp - a, b - tmp - 1, b - a);
    }
  }

  // The last round of the splay loop: a link after a rotation, or a link alone, to the
  // right tree or to the left one, with the end that the middle tree had before it.
  datatype Turn = Straight | WentLeft(bound: int) | WentRight(bound: int)

  // The allowance for the rounds so far, when [a, b) is left and the root will be at p.
  // A link alone is paid for together with the round after it.
  ghost function Slack(turn: Turn, p: int, a: int, b: int): int {
    match turn
    case Straight => -4 * Rank(b - a)
    case WentLeft(e) => 1 + 2 * Rank(e - p - 1) - 6 * Rank(e - a)
    case WentRight(d) => 1 + 2 * Rank(p - d) - 6 * Rank(b - d)
  }

  ghost predicate Encloses(turn: Turn, a: int, b: int) {
    match turn
    case Straight => true
    case WentLeft(e) => b < e
    case WentRight(d) => d < a
  }

  lemma SlackAtMost(turn: Turn, p: int, a: int, b: int)
    requires Encloses(turn, a, b) && a <= p < b
    ensures Slack(turn, p, a, b) <= 1 - 4 * Rank(b - a)
  {
    match turn
    case Straight =>
    case WentLeft(e) =>
      RankMonotone(e - p - 1, e - a);
      RankMonotone(b - a, e - a);
    case WentRight(d) =>
      RankMonotone(p - d, b - d);
      RankMonotone(b - a, b - d);
  }

  // A link to the right tree alone; top keeps the nodes after p.
  lemma SlackLeft(turn: Turn, p: int, a: int, b: int, e: int)
    requires Encloses(turn, a, b) && !turn.WentLeft? && a <= p < e < b
    ensures var next := if turn.Straight? then WentLeft(b) else Straight;
      Slack(turn, p, a, b) + 1 + 2 * (Rank(b - p - 1) - Rank(b - a)) <= Slack(next, p, a, e)
  {
    if turn.WentRight? {
      RankParts(p - turn.bound, b - p - 1, b - turn.bound);
      RankMonotone(b - a, b - turn.bound);
      RankMonotone(e - a, b - a);
    }
  }

  lemma SlackRight(turn: Turn, p: int, a: int, b: int, d: int)
    requires Encloses(turn, a, b) && !turn.WentRight? && a < d <= p < b
    ensures var next := if turn.Straight? then WentRight(a) else Straight;
      Slack(turn, p, a, b) + 1 + 2 * (Rank(p - a) - Rank(b - a)) <= Slack(next, p, d, b)
  {
    if turn.WentLeft? {
      RankParts(turn.bound - p - 1, p - a, turn.bound - a);
      RankMonotone(b - a, turn.bound - a);
      RankMonotone(b - d, b - a);
    }
  }

  // What the rounds so far have cost, wherever in [a, b) the root will be.
  ghost predicate Paid(q: seq<Span>, steps: nat, base: int, turn: Turn, a: int, b: int) {
    && Encloses(turn, a, b)
    && forall p | a <= p < b :: steps + 2 * Potential(q, p) <= base + Slack(turn, p, a, b)
  }

  // What the loop starts from.
  ghost function Credit(q: seq<Span>): int {
    2 * Potential(q, 0) + 4 * Rank(|q|)
  }

  lemma PaidAtStart(q: seq<Span>)
    requires Closed(q)
    ensures Paid(q, 0, Credit(q), Straight, 0, |q|)
  {
    forall p | 0 <= p < |q|
      ensures 2 * Potential(q, p) <= Credit(q) + Slack(Straight, p, 0, |q|)
    {
      PotentialClosed(q, p);
    }
  }

  // A round that rotates pays for itself and for a link alone before it.
  lemma PaidByRotation(q: seq<Span>, r: seq<Span>, steps: nat, base: int, turn: Turn, a: int, b: int, a': int, b': int)
    requires Paid(q, steps, base, turn, a, b) && a <= a' < b' <= b
    requires Rises(q, r, a', b', 2 * (Rank(b - a) - Rank(b' - a')) - 1)
    ensures Paid(r, steps + 1, base, Straight, a', b')
  {
    forall p | a' <= p < b'
      ensures steps + 1 + 2 * Potential(r, p) <= base + Slack(Straight, p, a', b')
    {
      assert steps + 2 * Potential(q, p) <= base + Slack(turn, p, a, b);
      SlackAtMost(turn, p, a, b);
    }
  }

  ghost function AfterLeft(turn: Turn, b: int): Turn {
    if turn.Straight? then WentLeft(b) else Straight
  }

  ghost function AfterRight(turn: Turn, a: int): Turn {
    if turn.Straight? then WentRight(a) else Straight
  }

  // A link of the old root, at index e, to the right tree alone.
  lemma PaidByLinkLeft(q: seq<Span>, r: seq<Span>, steps: nat, base: int, turn: Turn, a: int, b: int, e: int)
    requires Paid(q, steps, base, turn, a, b) && !turn.WentLeft? && 0 <= a < e < b <= |q|
    requires q[e] == Span(a, b) && r == q[e := Span(OPEN, b)]
    ensures Paid(r, steps + 1, base, AfterLeft(turn, b), a, e)
  {
    forall p | a <= p < e
      ensures steps + 1 + 2 * Potential(r, p) <= base + Slack(AfterLeft(turn, b), p, a, e)
    {
      assert steps + 2 * Potential(q, p) <= base + Slack(turn, p, a, b);
      PotentialUpdate(q, e, Span(OPEN, b), p);
      SlackLeft(turn, p, a, b, e);
    }
  }

  lemma PaidByLinkRight(q: seq<Span>, r: seq<Span>, steps: nat, base: int, turn: Turn, a: int, b: int, e: int)
    requires Paid(q, steps, base, turn, a, b) && !turn.WentRight? && 0 <= a <= e < b - 1 < |q|
    requires q[e] == Span(a, b) && r == q[e := Span(a, OPEN)]
    ensures Paid(r, steps + 1, base, AfterRight(turn, a), e + 1, b)
  {
    forall p | e + 1 <= p < b
      ensures steps + 1 + 2 * Potential(r, p) <= base + Slack(AfterRight(turn, a), p, e + 1, b)
    {
      assert steps + 2 * Potential(q, p) <= base + Slack(turn, p, a, b);
      PotentialUpdate(q, e, Span(a, OPEN), p);
      SlackRight(turn, p, a, b, e + 1);
    }
  }

  // The loop has ended with the root at p: what is paid before the trees are assembled.
  ghost predicate PaidOff(q: seq<Span>, steps: nat, base: int, a: int, b: int, p: int) {
    steps + 2 * Potential(q, p) <= base + 2 - 2 * Rank(b - a)
  }

  // The last round, if it leaves by a break: the middle tree keeps its nodes.
  lemma PaidAtBreak(q: seq<Span>, r: seq<Span>, steps: nat, base: int, turn: Turn, a: int, b: int, p: int)
    requires Paid(q, steps, base, turn, a, b) && a <= p < b && Rises(q, r, a, b, Rank(b - a))
    ensures PaidOff(r, steps + 1, base, a, b, p)
  {
    assert steps + 2 * Potential(q, p) <= base + Slack(turn, p, a, b);
    SlackAtMost(turn, p, a, b);
  }

  lemma PaidAtMatch(q: seq<Span>, steps: nat, base: int, turn: Turn, a: int, b: int, p: int)
    requires Paid(q, steps, base, turn, a, b) && a <= p < b
    ensures PaidOff(q, steps, base, a, b, p)
  {
    SlackAtMost(turn, p, a, b);
  }

  // The spans after SPLAY_ASSEMBLE: open ends close at p, and the root covers everything.
  ghost predicate Assembles(q: seq<Span>, r: seq<Span>, p: int) {
    && |r| == |q| && 0 <= p < |q| && r[p] == Span(0, |q|)
    && forall i | 0 <= i < |q| && i != p :: r[i].hi - r[i].lo == Size(q[i], p)
  }

  // The access lemma: rounds and rise in potential together are at most 6 lg n + 2.
  lemma PaidInAll(q: seq<Span>, r: seq<Span>, steps: nat, base: int, a: int, b: int, p: int)
    requires PaidOff(q, steps, base, a, b, p) && Assembles(q, r, p) && q[p] == Span(a, b) && Closed(r)
    requires 0 <= a <= p < b
    ensures steps + 2 * Potential(r, 0) <= base + 2 * Rank(|q|) + 2
  {
    PotentialClosed(r, p);
    WeightUpdate(Sizes(q, p), p, |q|);
    assert Sizes(r, p) == Sizes(q, p)[p := |q|];
  }

  // ---- Nodes that come and go ----

  // Where index i goes when an element is put in at index k.
  ghost function Moved(i: int, k: int): int {
    if i < k then i else i + 1
  }

  ghost predicate Shrinks(x: Span, y: Span) {
    y.hi - y.lo <= x.hi - x.lo
  }

  // A node put above the splayed root, at index k.
  ghost predicate Grows(q: seq<Span>, r: seq<Span>, k: int) {
    && |r| == |q| + 1 && 0 <= k < |r| && r[k] == Span(0, |r|)
    && forall i | 0 <= i < |q| :: Shrinks(q[i], r[Moved(i, k)])
  }

  lemma GrowthRises(q: seq<Span>, r: seq<Span>, k: int)
    requires Grows(q, r, k) && Closed(q) && Closed(r)
    ensures Potential(r, 0) <= Potential(q, 0) + Rank(|r|)
  {
    hide Weight, Rank;
    var x, y := Sizes(q, 0), Sizes(r, 0);
    var z := y[..k] + y[k + 1..];
    forall i | 0 <= i < |x|
      ensures z[i] <= x[i]
    {
      assert Shrinks(q[i], r[Moved(i, k)]) && z[i] == y[Moved(i, k)];
    }
    WeightSplit(y, k);
    WeightConcat(y[..k], y[k + 1..]);
    WeightMonotone(z, x);
  }

  // The first node taken out.
  ghost predicate Drops(q: seq<Span>, r: seq<Span>) {
    && |q| == |r| + 1
    && forall i | 0 <= i < |r| :: r[i].hi - r[i].lo == q[i + 1].hi - q[i + 1].lo
  }

  lemma DropFalls(q: seq<Span>, r: seq<Span>)
    requires Closed(q) && Closed(r) && Drops(q, r)
    ensures Potential(r, 0) <= Potential(q, 0)
  {
    var x, y := Sizes(q, 0), Sizes(r, 0);
    assert x == x[..1] + y;
    WeightConcat(x[..1], y);
  }

  // The left part of a tree, with the spans after, takes over the right part of the old
  // whole, whose subtree sizes are w, behind its last node; the node at index k is out.
  ghost predicate Joins(after: seq<Span>, w: seq<int>, r: seq<Span>, k: int) {
    && 0 < k < |w| && |after| == k
    && |r| == |w| - 1 && r[k - 1] == Span(0, |r|)
    && (forall i | 0 <= i < k - 1 :: r[i] == after[i])
    && (forall i | k <= i < |r| :: r[i].hi - r[i].lo == w[i + 1])
  }

  lemma ReplacementFalls(q: seq<Span>, after: seq<Span>, w: seq<int>, r: seq<Span>, k: int)
    requires Joins(after, w, r, k) && Closed(q) && Closed(after) && Closed(r)
    requires |w| == |q| && q[k] == Span(0, |q|) && forall i | k < i < |q| :: w[i] == q[i].hi - q[i].lo
    ensures Potential(r, 0) + Potential(q[..k], 0) <= Potential(q, 0) + Potential(after, 0)
  {
    hide Weight, Rank;
    var x, y, z := Sizes(q, 0), Sizes(r, 0), Sizes(after, 0);
    var rest := x[k + 1..];
    assert x[..k] == Sizes(q[..k], 0);
    forall i | 0 <= i < |y|
      ensures y[i] == (z[k - 1 := |r|] + rest)[i]
    {
      if i < k - 1 {
        assert r[i] == after[i];
      }
    }
    assert y == z[k - 1 := |r|] + rest;
    WeightSplit(x, k);
    WeightConcat(z[k - 1 := |r|], rest);
    WeightUpdate(z, k - 1, |r|);
    RankMonotone(|r|, |q|);
  }

  // ---- Amortized cost ----

  // Steps taken from spans q to spans r, against the change in potential.
  ghost predicate Affordable(q: seq<Span>, r: seq<Span>, steps: nat, cost: int) {
    steps + 2 * Potential(r, 0) <= 2 * Potential(q, 0) + cost
  }

  lemma AffordMore(q: seq<Span>, r: seq<Span>, steps: nat, cost: int, more: int)
    requires Affordable(q, r, steps, cost) && cost <= more
    ensures Affordable(q, r, steps, more)
  {
  }

  lemma FirstAffordable(q: seq<Span>, r: seq<Span>)
    requires q == [] && r == [Span(0, 1)]
    ensures Affordable(q, r, 0, 8 * Rank(|r|) + 2)
  {
    assert Sizes(r, 0) == [1];
    assert Sizes(r, 0)[..0] == [];
  }

  lemma GrowthAffordable(q: seq<Span>, mid: seq<Span>, r: seq<Span>, k: int, steps: nat)
    requires Affordable(q, mid, steps, 6 * Rank(|mid|) + 2) && Grows(mid, r, k) && Closed(mid) && Closed(r)
    ensures Affordable(q, r, steps, 8 * Rank(|r|) + 2)
  {
    GrowthRises(mid, r, k);
    RankMonotone(|mid|, |r|);
  }

  lemma AccessAffordable(q: seq<Span>, mid: seq<Span>, r: seq<Span>, steps: nat, a: int, b: int, p: int)
    requires PaidOff(mid, steps, Credit(q), a, b, p) && |q| == |mid|
    requires Assembles(mid, r, p) && mid[p] == Span(a, b) && Closed(r) && 0 <= a <= p < b
    ensures Affordable(q, r, steps, 6 * Rank(|q|) + 2)
  {
    PaidInAll(mid, r, steps, Credit(q), a, b, p);
  }

  lemma NoSteps(q: seq<Span>, cost: nat)
    ensures Affordable(q, q, 0, cost)
  {
  }

  lemma DropAffordable(q: seq<Span>, r: seq<Span>)
    requires Closed(q) && Closed(r) && Drops(q, r)
    ensures Affordable(q, r, 0, 6 * Rank(|q|) + 2)
  {
    DropFalls(q, r);
  }

  // The splay of the left part, and what joining adds.
  lemma ReplacementAffordable(q: seq<Span>, after: seq<Span>, w: seq<int>, r: seq<Span>, k: int, steps: nat)
    requires Joins(after, w, r, k) && Closed(q) && Closed(after) && Closed(r)
    requires |w| == |q| && q[k] == Span(0, |q|) && forall i | k < i < |q| :: w[i] == q[i].hi - q[i].lo
    requires Affordable(q[..k], after, steps, 6 * Rank(k) + 2)
    ensures Affordable(q, r, steps, 6 * Rank(|q|) + 2)
  {
    ReplacementFalls(q, after, w, r, k);
    RankMonotone(k, |q|);
  }

  lemma SplayTwice(q: seq<Span>, mid: seq<Span>, r: seq<Span>, steps: nat, more: nat)
    requires |mid| == |q| && Affordable(q, mid, steps, 6 * Rank(|q|) + 2)
    requires (more == 0 && r == mid) || Affordable(mid, r, more, 6 * Rank(|q|) + 2)
    ensures Affordable(q, r, steps + more, 12 * Rank(|q|) + 4)
  {
  }
}
