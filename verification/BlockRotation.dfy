// The block exchange of getopt_long's argument permutation.
module BlockRotation {
  predicate Divides(d: int, n: int)
    requires d > 0
  {
    n % d == 0
  }

  lemma MultipleHasNoRemainder(d: int, k: int)
    requires d > 0
    ensures (d * k) % d == 0
  {
    var r, z := (d * k) % d, (d * k) / d;
    assert d * k == d * z + r;
    assert r == d * (k - z);
    SmallMultiple(d, k - z);
  }

  lemma DividesSum(d: int, a: int, b: int, k: int)
    requires d > 0 && Divides(d, a) && Divides(d, b)
    ensures Divides(d, a + k * b)
  {
    var x, y := a / d, b / d;
    assert a == d * x && b == d * y;
    assert a + k * b == d * (x + k * y) by {
      assert k * b == k * (d * y) == d * (k * y);
      assert d * (x + k * y) == d * x + d * (k * y);
    }
    MultipleHasNoRemainder(d, x + k * y);
  }

  // The greatest common divisor, with the coefficients of Bezout's identity.
  method Gcd(a0: int, b0: int) returns (g: int, ghost x: int, ghost y: int)
    requires a0 >= 0 && b0 > 0
    ensures g > 0 && Divides(g, a0) && Divides(g, b0)
    ensures a0 * x + b0 * y == g
  {
    var a, b := a0, b0;
    var c := a % b;
    ghost var xa, ya, xb, yb := 1, 0, 0, 1;
    while c != 0
      invariant a >= 0 && b > 0 && c == a % b
      invariant a == a0 * xa + b0 * ya && b == a0 * xb + b0 * yb
      invariant forall d | d > 0 && Divides(d, a) && Divides(d, b) :: Divides(d, a0) && Divides(d, b0)
      decreases b
    {
      ghost var k := a / b;
      assert c == a - k * b;
      BezoutStep(a0, b0, xa, ya, xb, yb, k);
      forall d | d > 0 && Divides(d, b) && Divides(d, c)
        ensures Divides(d, a)
      {
        DividesSum(d, c, b, k);
      }
      xa, ya, xb, yb := xb, yb, xa - k * xb, ya - k * yb;
      a := b;
      b := c;
      c := a % b;
    }
    MultipleHasNoRemainder(b, 1);
    return b, xb, yb;
  }

  lemma BezoutStep(a0: int, b0: int, xa: int, ya: int, xb: int, yb: int, k: int)
    ensures (a0 * xa + b0 * ya) - k * (a0 * xb + b0 * yb) == a0 * (xa - k * xb) + b0 * (ya - k * yb)
  {
    assert k * (a0 * xb) == a0 * (k * xb);
    assert k * (b0 * yb) == b0 * (k * yb);
  }

  // Every common divisor divides the result, so it is the greatest one.
  lemma CommonDivisorDivides(a: int, b: int, g: int, x: int, y: int, d: int)
    requires d > 0 && Divides(d, a) && Divides(d, b) && a * x + b * y == g
    ensures Divides(d, g)
  {
    MultipleHasNoRemainder(d, 0);
    DividesSum(d, 0, a, x);
    DividesSum(d, x * a, b, y);
  }

  // One move of permute_args, for positions relative to the start of the first block.
  function Step(nn: int, no: int, v: int): int {
    if v >= nn then v - nn else v + no
  }

  // The position after j moves of cycle i.
  ghost function Visit(nn: int, no: int, i: int, j: nat): int {
    if j == 0 then nn + i else Step(nn, no, Visit(nn, no, i, j - 1))
  }

  // How often the first j moves have wrapped around.
  ghost function Wraps(nn: int, no: int, i: int, j: nat): int {
    if j == 0 then 0
    else Wraps(nn, no, i, j - 1) + if Visit(nn, no, i, j - 1) >= nn then 1 else 0
  }

  lemma Distributes(a: int, b: int)
    ensures (a + 1) * b == a * b + b && b * (a + 1) == b * a + b
  {
  }

  lemma {:induction false} VisitForm(nn: int, no: int, i: int, j: nat)
    requires 0 < nn && 0 < no && 0 <= i < no
    ensures 0 <= Visit(nn, no, i, j) < nn + no
    ensures Visit(nn, no, i, j) == nn + i + j * no - (nn + no) * Wraps(nn, no, i, j)
  {
    if j > 0 {
      VisitForm(nn, no, i, j - 1);
      Distributes(j - 1, no);
      Distributes(Wraps(nn, no, i, j - 1), nn + no);
    }
  }

  // The two block lengths over their greatest common divisor, as permute_args has them.
  ghost predicate Blocks(nn: int, no: int, g: int, x: int, y: int) {
    0 < nn && 0 < no && 0 < g && Divides(g, nn) && Divides(g, no) && nn * x + no * y == g
  }

  ghost function Cycle(nn: int, no: int, g: int): int
    requires 0 < g
  {
    (nn + no) / g
  }

  // With p, q the lengths over g and len = p + q, q has an inverse modulo len.
  lemma Reduced(nn: int, no: int, g: int, x: int, y: int) returns (q: int, u: int, len: int)
    requires Blocks(nn, no, g, x, y)
    ensures no == g * q && nn + no == g * len && len == Cycle(nn, no, g) && 0 < len
    ensures q * u == 1 - len * x && 0 < q
  {
    var p := nn / g;
    q := no / g;
    assert nn == g * p && no == g * q;
    len := p + q;
    assert nn + no == g * len;
    CancelFactor(g, len, Cycle(nn, no, g));
    u := y - x;
    assert g * (p * x + q * y) == g by {
      assert nn * x == g * (p * x);
      assert no * y == g * (q * y);
    }
    CancelOne(g, p * x + q * y);
    assert q * u == q * y - q * x && len * x == p * x + q * x;
    PositiveFactor(g, q);
    PositiveFactor(g, p);
  }

  lemma CancelFactor(g: int, len: int, c: int)
    requires 0 < g && c == (g * len) / g
    ensures c == len
  {
    var r := (g * len) % g;
    MultipleHasNoRemainder(g, len);
    assert g * len == g * c;
    CancelOne(g, len - c + 1);
  }

  lemma CancelOne(g: int, k: int)
    requires 0 < g && g * k == g
    ensures k == 1
  {
    assert g * (k - 1) == 0;
    SmallMultiple(g, k - 1);
  }

  lemma PositiveFactor(g: int, k: int)
    requires 0 < g && 0 < g * k
    ensures 0 < k
  {
    assert k <= 0 ==> g * k <= 0;
  }

  // A multiple of len that is smaller than len in absolute value is zero.
  lemma SmallMultiple(len: int, k: int)
    requires 0 < len && -len < len * k < len
    ensures k == 0
  {
    assert k >= 1 ==> len * k >= len;
    assert k <= -1 ==> len * k <= -len;
  }

  // If d steps of q come back to the start modulo len, then d is 0 modulo len.
  lemma OnlyFullTurns(g: int, q: int, u: int, len: int, x: int, d: int, w: int)
    requires 0 < g && -len < d < len && q * u == 1 - len * x
    requires d * (g * q) == (g * len) * w
    ensures d == 0
  {
    ScaledDown(g, q, len, d, w);
    assert (d * q) * u == d * (q * u) == d * (1 - len * x) == d - d * (len * x);
    assert (len * w) * u == len * (w * u);
    assert d * (len * x) == len * (d * x);
    assert d == len * (d * x + w * u);
    SmallMultiple(len, d * x + w * u);
  }

  lemma VisitInjective(nn: int, no: int, g: int, x: int, y: int, i: int, j: nat, k: nat)
    requires Blocks(nn, no, g, x, y) && 0 <= i < g && i < no
    requires j < Cycle(nn, no, g) && k < Cycle(nn, no, g)
    requires Visit(nn, no, i, j) == Visit(nn, no, i, k)
    ensures j == k
  {
    var q, u, len := Reduced(nn, no, g, x, y);
    VisitForm(nn, no, i, j);
    VisitForm(nn, no, i, k);
    SameVisit(nn, no, i, j, k, Wraps(nn, no, i, j), Wraps(nn, no, i, k));
    OnlyFullTurns(g, q, u, len, x, j - k, Wraps(nn, no, i, j) - Wraps(nn, no, i, k));
  }

  lemma SameVisit(nn: int, no: int, i: int, j: int, k: int, w: int, z: int)
    requires nn + i + j * no - (nn + no) * w == nn + i + k * no - (nn + no) * z
    ensures (j - k) * no == (nn + no) * (w - z)
  {
  }

  lemma ScaledDown(g: int, q: int, len: int, d: int, w: int)
    requires 0 < g && d * (g * q) == (g * len) * w
    ensures d * q == len * w
  {
    assert g * (d * q - len * w + 1) == g by {
      assert d * (g * q) == g * (d * q);
      assert (g * len) * w == g * (len * w);
    }
    CancelOne(g, d * q - len * w + 1);
  }

  lemma FullTurn(n: int, no: int, g: int, q: int, len: int, w: int)
    requires 0 < n && no == g * q && n == g * len && -n < len * no - n * w < n
    ensures len * no - n * w == 0
  {
    assert len * (g * q) == (g * len) * q;
    assert len * no - n * w == n * (q - w);
    SmallMultiple(n, q - w);
  }

  lemma VisitCloses(nn: int, no: int, g: int, x: int, y: int, i: int)
    requires Blocks(nn, no, g, x, y) && 0 <= i < g && i < no && Cycle(nn, no, g) >= 0
    ensures Visit(nn, no, i, Cycle(nn, no, g)) == nn + i
  {
    var q, u, len := Reduced(nn, no, g, x, y);
    VisitForm(nn, no, i, len);
    VisitForm(nn, no, i, 0);
    FullTurn(nn + no, no, g, q, len, Wraps(nn, no, i, len));
  }

  lemma {:induction false} VisitClass(nn: int, no: int, g: int, i: int, j: nat)
    requires 0 < g && Divides(g, nn) && Divides(g, no) && 0 <= i < g
    ensures Visit(nn, no, i, j) % g == i
  {
    if j == 0 {
      RemainderOfShift(g, nn, i);
      SmallRemainder(g, i);
    } else {
      VisitClass(nn, no, g, i, j - 1);
      var v := Visit(nn, no, i, j - 1);
      RemainderOfShift(g, nn, v - nn);
      RemainderOfShift(g, no, v);
    }
  }

  lemma SmallRemainder(g: int, i: int)
    requires 0 <= i < g
    ensures i % g == i
  {
  }

  lemma RemainderOfShift(g: int, n: int, v: int)
    requires 0 < g && Divides(g, n)
    ensures (n + v) % g == v % g
  {
    var k, z := n / g, v / g;
    var r, w := (n + v) % g, (n + v) / g;
    assert n == g * k && v == g * z + v % g && n + v == g * w + r;
    assert g * (k + z - w) == r - v % g;
    SmallMultiple(g, k + z - w);
  }

  // The move count that leads from the cycle start to offset e.
  lemma MovesTo(g: int, q: int, u: int, len: int, x: int, e: int, j: int, z: int)
    requires q * u == 1 - len * x && e * u == len * z + j
    ensures j * (g * q) == g * e - (g * len) * (x * e + z * q)
  {
    assert j * q == e - len * (x * e + z * q) by {
      assert j * q == (e * u) * q - (len * z) * q;
      assert (e * u) * q == e * (q * u) == e * (1 - len * x) == e - e * (len * x);
      assert e * (len * x) == len * (x * e);
      assert (len * z) * q == len * (z * q);
    }
    assert j * (g * q) == g * (j * q);
    assert g * (len * (x * e + z * q)) == (g * len) * (x * e + z * q);
  }

  lemma SamePlace(n: int, v: int, c: int, e: int, k: int, w: int)
    requires 0 < n && 0 <= v < n && v == c + e && 0 <= c + (e - n * k) - n * w < n
    ensures v == c + (e - n * k) - n * w
  {
    assert n * (k + w) == n * k + n * w;
    SmallMultiple(n, k + w);
  }

  // Every position lies on the cycle of its residue class.
  lemma ClassForm(nn: int, g: int, v: int)
    requires 0 < g && Divides(g, nn)
    ensures v == nn + v % g + g * (v / g - nn / g)
  {
    assert v == g * (v / g) + v % g && nn == g * (nn / g);
    assert g * (v / g - nn / g) == g * (v / g) - g * (nn / g);
  }

  lemma VisitCovers(nn: int, no: int, g: int, x: int, y: int, v: int)
    requires Blocks(nn, no, g, x, y) && 0 <= v < nn + no && g <= no
    ensures exists j: nat :: j < Cycle(nn, no, g) && Visit(nn, no, v % g, j) == v
  {
    var q, u, len := Reduced(nn, no, g, x, y);
    var i := v % g;
    var e := v / g - nn / g;
    ClassForm(nn, g, v);
    var j, z := Quotient(e * u, len);
    MovesTo(g, q, u, len, x, e, j, z);
    VisitForm(nn, no, i, j);
    SamePlace(nn + no, v, nn + i, g * e, x * e + z * q, Wraps(nn, no, i, j));
  }

  lemma Quotient(n: int, d: int) returns (r: nat, z: int)
    requires 0 < d
    ensures n == d * z + r && r < d
  {
    r, z := n % d, n / d;
  }

  lemma VisitInRange(nn: int, no: int, i: int, j: nat)
    requires 0 < nn && 0 < no && 0 <= i < no
    ensures 0 <= Visit(nn, no, i, j) < nn + no
  {
    VisitForm(nn, no, i, j);
  }

  ghost predicate Rotation(nn: int, no: int, g: int, x: int, y: int) {
    Blocks(nn, no, g, x, y) && g <= no
  }

  // The number of moves after which the cycle of v's residue class reaches v.
  ghost function Rank(nn: int, no: int, g: int, x: int, y: int, v: int): (j: nat)
    requires Rotation(nn, no, g, x, y) && 0 <= v < nn + no
    ensures j < Cycle(nn, no, g) && Visit(nn, no, v % g, j) == v
  {
    VisitCovers(nn, no, g, x, y, v);
    var j: nat :| j < Cycle(nn, no, g) && Visit(nn, no, v % g, j) == v;
    j
  }

  lemma RankOfVisit(nn: int, no: int, g: int, x: int, y: int, i: int, j: nat)
    requires Rotation(nn, no, g, x, y) && 0 <= i < g && j < Cycle(nn, no, g)
    ensures 0 <= Visit(nn, no, i, j) < nn + no && Visit(nn, no, i, j) % g == i
    ensures Rank(nn, no, g, x, y, Visit(nn, no, i, j)) == j
  {
    VisitForm(nn, no, i, j);
    VisitClass(nn, no, g, i, j);
    VisitInjective(nn, no, g, x, y, i, j, Rank(nn, no, g, x, y, Visit(nn, no, i, j)));
  }

  // Where the element that ends up at v comes from.
  function Source(nn: int, no: int, v: int): int {
    if v < no then v + nn else v - no
  }

  // The words after i full cycles and j moves of the next one.
  ghost predicate Progress<T>(seg: seq<T>, cur: seq<T>, nn: int, no: int, g: int, x: int, y: int, i: int, j: int)
    requires Rotation(nn, no, g, x, y)
  {
    && |seg| == |cur| == nn + no && 0 <= i && 0 <= j <= Cycle(nn, no, g)
    && forall v | 0 <= v < nn + no :: cur[v] == Expected(seg, nn, no, g, x, y, i, j, v)
  }

  // The words after the cycles of the first i residue classes.
  ghost predicate Settled<T>(seg: seq<T>, cur: seq<T>, nn: int, no: int, g: int, i: int)
    requires 0 < g
  {
    && 0 <= nn && 0 <= no && |seg| == |cur| == nn + no
    && forall v | 0 <= v < nn + no :: cur[v] == if v % g < i then seg[Source(nn, no, v)] else seg[v]
  }

  ghost function Expected<T>(seg: seq<T>, nn: int, no: int, g: int, x: int, y: int, i: int, j: int, v: int): T
    requires Rotation(nn, no, g, x, y) && |seg| == nn + no && 0 <= i && 0 <= j && 0 <= v < nn + no
  {
    if v % g < i then seg[Source(nn, no, v)]
    else if v % g > i then seg[v]
    else
      var r := Rank(nn, no, g, x, y, v);
      if r == 0 then seg[CarriedFrom(nn, no, g, x, y, i, j)]
      else if r <= j then seg[Source(nn, no, v)]
      else seg[v]
  }

  // The cycle's start position holds the word last moved out of the way.
  ghost function CarriedFrom(nn: int, no: int, g: int, x: int, y: int, i: int, j: nat): (v: int)
    requires Rotation(nn, no, g, x, y) && 0 <= i < g
    ensures 0 <= v < nn + no
  {
    var last := if j < Cycle(nn, no, g) then j else Cycle(nn, no, g) - 1;
    var k: nat := if last < 0 then 0 else last;
    VisitForm(nn, no, i, k);
    Visit(nn, no, i, k)
  }

  lemma ProgressStart<T>(seg: seq<T>, cur: seq<T>, nn: int, no: int, g: int, x: int, y: int, i: int)
    requires Rotation(nn, no, g, x, y) && 0 <= i && Settled(seg, cur, nn, no, g, i)
    ensures Progress(seg, cur, nn, no, g, x, y, i, 0)
  {
    var q, u, len := Reduced(nn, no, g, x, y);
  }

  lemma ProgressStep<T>(seg: seq<T>, cur: seq<T>, nn: int, no: int, g: int, x: int, y: int, i: int, j: nat)
    requires Rotation(nn, no, g, x, y) && i < g && j < Cycle(nn, no, g)
    requires Progress(seg, cur, nn, no, g, x, y, i, j)
    ensures var pos, c := Visit(nn, no, i, j + 1), nn + i;
      0 <= pos < |cur| && Progress(seg, cur[pos := cur[c]][c := cur[pos]], nn, no, g, x, y, i, j + 1)
  {
    var pos, c := Visit(nn, no, i, j + 1), nn + i;
    VisitForm(nn, no, i, j + 1);
    RankOfVisit(nn, no, g, x, y, i, 0);
    RankOfVisit(nn, no, g, x, y, i, j);
    if j + 1 < Cycle(nn, no, g) {
      RankOfVisit(nn, no, g, x, y, i, j + 1);
    } else {
      VisitCloses(nn, no, g, x, y, i);
    }
    var next := cur[pos := cur[c]][c := cur[pos]];
    forall v | 0 <= v < nn + no
      ensures next[v] == Expected(seg, nn, no, g, x, y, i, j + 1, v)
    {
      assert cur[v] == Expected(seg, nn, no, g, x, y, i, j, v);
    }
  }

  lemma ProgressEnd<T>(seg: seq<T>, cur: seq<T>, nn: int, no: int, g: int, x: int, y: int, i: int)
    requires Rotation(nn, no, g, x, y) && 0 <= i < g && Progress(seg, cur, nn, no, g, x, y, i, Cycle(nn, no, g))
    ensures Settled(seg, cur, nn, no, g, i + 1)
  {
    var q, u, len := Reduced(nn, no, g, x, y);
    VisitCloses(nn, no, g, x, y, i);
    VisitForm(nn, no, i, len - 1);
  }

  lemma DivisorBound(d: int, n: int)
    requires 0 < d && 0 < n && Divides(d, n)
    ensures d <= n
  {
    assert n == d * (n / d);
    PositiveFactor(d, n / d);
    assert d * (n / d) >= d;
  }

  lemma RotatedSlice<T>(seg: seq<T>, cur: seq<T>, nn: int, no: int, g: int)
    requires 0 < g && Settled(seg, cur, nn, no, g, g)
    ensures cur == seg[nn..] + seg[..nn]
  {
  }

  // The words with the block [start, mid) after the block [mid, end).
  function Exchanged<T>(a: seq<T>, start: int, mid: int, end: int): seq<T>
    requires 0 <= start <= mid <= end <= |a|
  {
    a[..start] + a[mid..end] + a[start..mid] + a[end..]
  }

  lemma Glue<T>(a: seq<T>, b: seq<T>, start: int, mid: int, end: int)
    requires 0 <= start <= mid <= end <= |a| == |b|
    requires b[..start] == a[..start] && b[end..] == a[end..]
    requires var seg := a[start..end]; b[start..end] == seg[mid - start..] + seg[..mid - start]
    ensures b == Exchanged(a, start, mid, end)
  {
    assert b == b[..start] + b[start..end] + b[end..];
    assert a[start..end][mid - start..] == a[mid..end];
    assert a[start..end][..mid - start] == a[start..mid];
  }

  method Exchange<T>(argv: array<T>, pos: int, cstart: int, ghost start: int, ghost end: int)
    requires 0 <= start <= pos < end <= argv.Length && start <= cstart < end
    modifies argv
    ensures argv[..start] == old(argv[..start]) && argv[end..] == old(argv[end..])
    ensures var cur := old(argv[start..end]);
      argv[start..end] == cur[pos - start := cur[cstart - start]][cstart - start := cur[pos - start]]
  {
    var swap := argv[pos];
    argv[pos] := argv[cstart];
    argv[cstart] := swap;
  }

  // One pass of the inner loop's body: advance pos and swap it with the cycle start.
  method Move<T>(argv: array<T>, start: int, mid: int, end: int, i: int, pos: int, ghost seg: seq<T>,
      ghost g: int, ghost x: int, ghost y: int, ghost j: nat) returns (next: int)
    requires 0 <= start < mid < end <= argv.Length && 0 <= i < g
    requires Rotation(mid - start, end - mid, g, x, y) && j < Cycle(mid - start, end - mid, g)
    requires pos == start + Visit(mid - start, end - mid, i, j)
    requires Progress(seg, argv[start..end], mid - start, end - mid, g, x, y, i, j)
    modifies argv
    ensures next == start + Visit(mid - start, end - mid, i, j + 1)
    ensures argv[..start] == old(argv[..start]) && argv[end..] == old(argv[end..])
    ensures Progress(seg, argv[start..end], mid - start, end - mid, g, x, y, i, j + 1)
  {
    ghost var nn, no, cur := mid - start, end - mid, argv[start..end];
    ghost var p, c := Visit(nn, no, i, j + 1), nn + i;
    VisitInRange(nn, no, i, j + 1);
    ProgressStep(seg, cur, nn, no, g, x, y, i, j);
    if pos >= mid {
      next := pos - (mid - start);
    } else {
      next := pos + (end - mid);
    }
    assert next == start + p && mid + i == start + c;
    Exchange(argv, next, mid + i, start, end);
  }

  // One whole cycle: the words of one more residue class reach their places.
  method Turn<T>(argv: array<T>, start: int, mid: int, end: int, i: int, cyclelen: int, ghost seg: seq<T>,
      ghost g: int, ghost x: int, ghost y: int)
    requires 0 <= start < mid < end <= argv.Length && 0 <= i < g
    requires Rotation(mid - start, end - mid, g, x, y) && cyclelen == Cycle(mid - start, end - mid, g) >= 0
    requires Settled(seg, argv[start..end], mid - start, end - mid, g, i)
    modifies argv
    ensures argv[..start] == old(argv[..start]) && argv[end..] == old(argv[end..])
    ensures Settled(seg, argv[start..end], mid - start, end - mid, g, i + 1)
  {
    hide Settled, Progress, Rotation, Cycle;
    ghost var nn, no := mid - start, end - mid;
    var pos := mid + i;
    ProgressStart(seg, argv[start..end], nn, no, g, x, y, i);
    for j := 0 to cyclelen
      invariant argv[..start] == old(argv[..start]) && argv[end..] == old(argv[end..])
      invariant pos == start + Visit(nn, no, i, j)
      invariant Progress(seg, argv[start..end], nn, no, g, x, y, i, j)
    {
      pos := Move(argv, start, mid, end, i, pos, seg, g, x, y, j);
    }
    ProgressEnd(seg, argv[start..end], nn, no, g, x, y, i);
  }

  // permute_args: exchange the block [start, mid) with the block [mid, end).
  method PermuteArgs<T>(start: int, mid: int, end: int, argv: array<T>)
    requires 0 <= start < mid < end <= argv.Length
    modifies argv
    ensures argv[..] == Exchanged(old(argv[..]), start, mid, end)
  {
    hide Settled, Rotation, Divides, Exchanged, Cycle;
    var nnonopts := mid - start;
    var nopts := end - mid;
    var ncycle;
    ghost var x, y;
    ncycle, x, y := Gcd(nnonopts, nopts);
    ghost var a := argv[..];
    ghost var seg := argv[start..end];
    SettledAtStart(seg, nnonopts, nopts, ncycle, x, y);
    var cyclelen := (end - start) / ncycle;
    for i := 0 to ncycle
      invariant argv[..start] == a[..start] && argv[end..] == a[end..]
      invariant Settled(seg, argv[start..end], nnonopts, nopts, ncycle, i)
    {
      Turn(argv, start, mid, end, i, cyclelen, seg, ncycle, x, y);
    }
    RotatedSlice(seg, argv[start..end], nnonopts, nopts, ncycle);
    Glue(a, argv[..], start, mid, end);
  }

  lemma SettledAtStart<T>(seg: seq<T>, nn: int, no: int, g: int, x: int, y: int)
    requires 0 < nn && 0 < no && 0 < g && Divides(g, nn) && Divides(g, no) && nn * x + no * y == g
    requires |seg| == nn + no
    ensures Settled(seg, seg, nn, no, g, 0) && Rotation(nn, no, g, x, y)
    ensures Cycle(nn, no, g) == (nn + no) / g >= 0
  {
    DivisorBound(g, no);
  }
}
