// Simple queues whose stored links are masked with a cookie, against plain ones.
module XorQueue {
  // An address or cookie, as the machine holds it.
  datatype Word = Word(bits: bv64)

  type Cells = map<Word, Word>

  const NULL := Word(0)

  // Where a queue lives: the addresses of its two head words, and of the link field
  // of every element.
  datatype Layout = Layout(first: Word, last: Word, links: map<Word, Word>) {
    function Link(e: Word): Word {
      if e in links then links[e] else e
    }
  }

  // A queue's cookie, with the width of the unsigned long that pointers are cast to: 64
  // bits, or only 32 as on 64-bit Windows, where the cast cuts the pointer.
  datatype Cookie = Cookie(bits: bv64, narrow: bool)

  function WideXor(k: bv64, x: bv64): bv64 {
    k ^ x
  }

  function NarrowXor(k: bv64, x: bv64): bv64 {
    (k & 0xFFFF_FFFF) ^ (x & 0xFFFF_FFFF)
  }

  function LowHalf(x: bv64): bv64 {
    x & 0xFFFF_FFFF
  }

  predicate Low(x: bv64) {
    x <= 0xFFFF_FFFF
  }

  // XSIMPLEQ_XOR
  function Xor(k: Cookie, x: Word): Word {
    Word(if k.narrow then NarrowXor(k.bits, x.bits) else WideXor(k.bits, x.bits))
  }

  // A word that the cast leaves alone: any, or one below 4 GiB.
  predicate Fits(k: Cookie, x: Word) {
    k.narrow ==> Low(x.bits)
  }

  // Bit j of a word, counted from the lowest.
  predicate Bit(x: bv64, j: bv64)
    requires j < 64
  {
    (x >> j) & 1 == 1
  }

  lemma XorBit(k: bv64, x: bv64, j: bv64)
    requires j < 64
    ensures Bit(k ^ x, j) <==> (Bit(k, j) != Bit(x, j))
  {
  }

  lemma LowXorBit(k: bv64, x: bv64, j: bv64)
    requires j < 64
    ensures Bit((k & 0xFFFF_FFFF) ^ (x & 0xFFFF_FFFF), j) <==> (j < 32 && Bit(k, j) != Bit(x, j))
  {
  }

  lemma WideBit(k: bv64, x: bv64, j: bv64)
    requires j < 64
    ensures Bit(WideXor(k, x), j) <==> (Bit(k, j) != Bit(x, j))
  {
    hide Bit;
    XorBit(k, x, j);
  }

  lemma NarrowBit(k: bv64, x: bv64, j: bv64)
    requires j < 64
    ensures Bit(NarrowXor(k, x), j) <==> (j < 32 && Bit(k, j) != Bit(x, j))
  {
    hide Bit;
    LowXorBit(k, x, j);
  }

  function Width(k: Cookie): bv64 {
    if k.narrow then 32 else 64
  }

  // What the mask is: it turns over exactly the bits that are set in the cookie, and with
  // a 32-bit unsigned long it clears the upper half.
  lemma MaskIsBitwise(k: Cookie, x: Word, j: bv64)
    requires j < 64
    ensures Bit(Xor(k, x).bits, j) <==> (j < Width(k) && Bit(k.bits, j) != Bit(x.bits, j))
  {
    hide NarrowXor, WideXor, Bit;
    WideBit(k.bits, x.bits, j);
    NarrowBit(k.bits, x.bits, j);
  }

  // The cookie as the cast leaves it.
  function Key(k: Cookie): bv64 {
    if k.narrow then LowHalf(k.bits) else k.bits
  }

  lemma XorSame(k: bv64, x: bv64)
    ensures k ^ x == x <==> k == 0
  {
  }

  lemma LowXorSame(k: bv64, x: bv64)
    ensures (k & 0xFFFF_FFFF) ^ (x & 0xFFFF_FFFF) == x <==> x <= 0xFFFF_FFFF && k & 0xFFFF_FFFF == 0
  {
  }

  lemma WideSame(k: bv64, x: bv64)
    ensures WideXor(k, x) == x <==> k == 0
  {
    XorSame(k, x);
  }

  lemma NarrowSame(k: bv64, x: bv64)
    ensures NarrowXor(k, x) == x <==> Low(x) && LowHalf(k) == 0
  {
    LowXorSame(k, x);
  }

  // NULL is stored as the cookie itself, and only the cookie 0 leaves a pointer as it is.
  lemma MaskHides(k: Cookie, x: Word)
    ensures Xor(k, x) == x <==> Fits(k, x) && Key(k) == 0
    ensures Xor(k, NULL) == Word(Key(k))
  {
    hide NarrowXor, WideXor, Low, LowHalf;
    WideSame(k.bits, x.bits);
    NarrowSame(k.bits, x.bits);
    MaskOfNull(k.bits);
  }

  lemma MaskOfNull(k: bv64)
    ensures WideXor(k, 0) == k && NarrowXor(k, 0) == LowHalf(k)
  {
  }

  lemma WideTwice(k: bv64, x: bv64)
    ensures WideXor(k, WideXor(k, x)) == x
  {
  }

  lemma NarrowTwice(k: bv64, x: bv64)
    ensures NarrowXor(k, NarrowXor(k, x)) == x & 0xFFFF_FFFF
  {
  }

  lemma NarrowIsLow(k: bv64, x: bv64)
    ensures Low(NarrowXor(k, x))
  {
  }

  lemma LowIsKept(x: bv64)
    ensures x & 0xFFFF_FFFF == x <==> Low(x)
  {
  }

  lemma NarrowKeepsLow(k: bv64, x: bv64)
    ensures NarrowXor(k, NarrowXor(k, x)) == x <==> Low(x)
  {
    hide NarrowXor, Low;
    NarrowTwice(k, x);
    LowIsKept(x);
  }

  // For every cookie, unmasking a masked word gives it back exactly if it fits.
  lemma XorTwice(k: Cookie, x: Word)
    ensures Xor(k, Xor(k, x)) == x <==> Fits(k, x)
    ensures Fits(k, Xor(k, x))
  {
    hide NarrowXor, WideXor, Low;
    NarrowKeepsLow(k.bits, x.bits);
    NarrowIsLow(k.bits, x.bits);
    WideTwice(k.bits, x.bits);
  }

  // With a 32-bit unsigned long the pointer to 4 GiB comes back as NULL.
  lemma NarrowExample(bits: bv64)
    ensures var k, p := Cookie(bits, true), Word(0x1_0000_0000); Xor(k, Xor(k, p)) == NULL
  {
    NarrowTwice(bits, 0x1_0000_0000);
  }

  lemma XorInjective(k: Cookie, x: Word, y: Word)
    requires Fits(k, x) && Fits(k, y)
    ensures Xor(k, x) == Xor(k, y) <==> x == y
  {
    hide Xor;
    XorTwice(k, x);
    XorTwice(k, y);
  }

  function Mask(k: Cookie, m: Cells): (r: Cells)
    ensures r.Keys == m.Keys
    ensures forall a | a in m :: r[a] == Xor(k, m[a])
  {
    map a | a in m :: Xor(k, m[a])
  }

  lemma MaskUpdate(k: Cookie, m: Cells, a: Word, v: Word)
    ensures Mask(k, m[a := v]) == Mask(k, m)[a := Xor(k, v)]
  {
    hide Xor;
    var l, r := Mask(k, m[a := v]), Mask(k, m)[a := Xor(k, v)];
    assert l.Keys == r.Keys;
    forall b | b in l
      ensures l[b] == r[b]
    {
    }
  }

  // --- The plain operations ---

  // SIMPLEQ_INIT
  function Init(m: Cells, q: Layout): Cells {
    m[q.first := NULL][q.last := q.first]
  }

  // SIMPLEQ_INSERT_HEAD
  function InsertHead(m: Cells, q: Layout, e: Word): Cells
    requires q.first in m
  {
    var m1 := m[q.Link(e) := m[q.first]];
    var m2 := if m[q.first] == NULL then m1[q.last := q.Link(e)] else m1;
    m2[q.first := e]
  }

  // SIMPLEQ_INSERT_TAIL
  function InsertTail(m: Cells, q: Layout, e: Word): Cells
    requires q.last in m
  {
    var m1 := m[q.Link(e) := NULL];
    var m2 := m1[m1[q.last] := e];
    m2[q.last := q.Link(e)]
  }

  // SIMPLEQ_INSERT_AFTER
  function InsertAfter(m: Cells, q: Layout, l: Word, e: Word): Cells
    requires q.Link(l) in m
  {
    var m1 := m[q.Link(e) := m[q.Link(l)]];
    var m2 := if m[q.Link(l)] == NULL then m1[q.last := q.Link(e)] else m1;
    m2[q.Link(l) := e]
  }

  // SIMPLEQ_REMOVE_HEAD
  function RemoveHead(m: Cells, q: Layout): Cells
    requires q.first in m && q.Link(m[q.first]) in m
  {
    var next := m[q.Link(m[q.first])];
    var m1 := m[q.first := next];
    if next == NULL then m1[q.last := q.first] else m1
  }

  // SIMPLEQ_REMOVE_AFTER
  function RemoveAfter(m: Cells, q: Layout, e: Word): Cells
    requires q.Link(e) in m && q.Link(m[q.Link(e)]) in m
  {
    var next := m[q.Link(m[q.Link(e)])];
    var m1 := m[q.Link(e) := next];
    if next == NULL then m1[q.last := q.Link(e)] else m1
  }

  // The operations; XSIMPLEQ_INIT draws a new cookie.
  datatype Operation = OpInit(cookie: Cookie) | OpInsertHead(e: Word) | OpInsertTail(e: Word)
    | OpInsertAfter(l: Word, e: Word) | OpRemoveHead | OpRemoveAfter(e: Word)

  function Apply(m: Cells, q: Layout, op: Operation): Cells {
    match op
    case OpInit(_) => Init(m, q)
    case OpInsertHead(e) => if q.first in m then InsertHead(m, q, e) else m
    case OpInsertTail(e) => if q.last in m then InsertTail(m, q, e) else m
    case OpInsertAfter(l, e) => if q.Link(l) in m then InsertAfter(m, q, l, e) else m
    case OpRemoveHead => if q.first in m && q.Link(m[q.first]) in m then RemoveHead(m, q) else m
    case OpRemoveAfter(e) => if q.Link(e) in m && q.Link(m[q.Link(e)]) in m then RemoveAfter(m, q, e) else m
  }

  function ApplyAll(m: Cells, q: Layout, ops: seq<Operation>): Cells {
    if ops == [] then m else Apply(ApplyAll(m, q, ops[..|ops| - 1]), q, ops[|ops| - 1])
  }

  // --- What the plain links mean ---

  function CellAt(q: Layout, t: seq<Word>, i: int): Word
    requires 0 <= i <= |t|
  {
    if i == 0 then q.first else q.Link(t[i - 1])
  }

  function At(t: seq<Word>, i: int): Word
    requires 0 <= i <= |t|
  {
    if i < |t| then t[i] else NULL
  }

  // The addresses of a queue's words do not overlap.
  ghost predicate Apart(q: Layout, t: seq<Word>) {
    && q.first != q.last
    && (forall i | 0 <= i < |t| :: t[i] != NULL && q.Link(t[i]) != q.first && q.Link(t[i]) != q.last)
    && (forall i, j | 0 <= i < j < |t| :: q.Link(t[i]) != q.Link(t[j]))
  }

  // The memory m holds a queue at q with the elements t.
  ghost predicate Chain(m: Cells, q: Layout, t: seq<Word>) {
    && Apart(q, t)
    && q.last in m && m[q.last] == CellAt(q, t, |t|)
    && (forall i {:trigger CellAt(q, t, i)} | 0 <= i <= |t| :: CellAt(q, t, i) in m && m[CellAt(q, t, i)] == At(t, i))
  }

  lemma CellsApart(q: Layout, t: seq<Word>, i: int, j: int)
    requires Apart(q, t) && 0 <= i <= |t| && 0 <= j <= |t|
    ensures CellAt(q, t, i) == CellAt(q, t, j) ==> i == j
    ensures CellAt(q, t, i) != q.last && (At(t, i) == NULL <==> i == |t|)
  {
  }

  lemma InitIsEmpty(m: Cells, q: Layout)
    requires q.first != q.last
    ensures Chain(Init(m, q), q, [])
  {
  }

  lemma InsertHeadPrepends(m: Cells, q: Layout, t: seq<Word>, e: Word)
    requires Chain(m, q, t) && Apart(q, [e] + t)
    ensures q.first in m && Chain(InsertHead(m, q, e), q, [e] + t)
  {
    assert CellAt(q, t, 0) == q.first;
    var u, n := [e] + t, InsertHead(m, q, e);
    forall i {:trigger CellAt(q, u, i)} | 0 <= i <= |u|
      ensures CellAt(q, u, i) in n && n[CellAt(q, u, i)] == At(u, i)
    {
      CellsApart(q, u, i, 0);
      CellsApart(q, u, i, 1);
      if i > 1 {
        assert CellAt(q, u, i) == CellAt(q, t, i - 1);
      }
    }
    CellsApart(q, u, |u|, 0);
    assert |t| > 0 ==> CellAt(q, u, |u|) == CellAt(q, t, |t|);
  }

  lemma InsertTailAppends(m: Cells, q: Layout, t: seq<Word>, e: Word)
    requires Chain(m, q, t) && Apart(q, t + [e])
    ensures Chain(InsertTail(m, q, e), q, t + [e])
  {
    var u, n := t + [e], InsertTail(m, q, e);
    assert CellAt(q, u, |t|) == CellAt(q, t, |t|);
    CellsApart(q, u, |t| + 1, |t|);
    forall i {:trigger CellAt(q, u, i)} | 0 <= i <= |u|
      ensures CellAt(q, u, i) in n && n[CellAt(q, u, i)] == At(u, i)
    {
      CellsApart(q, u, i, |t|);
      CellsApart(q, u, i, |t| + 1);
      if i <= |t| {
        assert CellAt(q, u, i) == CellAt(q, t, i);
      }
    }
  }

  // u is t with e put in at index k.
  ghost predicate Inserted(t: seq<Word>, u: seq<Word>, k: int, e: Word) {
    && 0 <= k <= |t| && |u| == |t| + 1 && u[k] == e
    && (forall i | 0 <= i < k :: u[i] == t[i])
    && (forall i | k < i < |u| :: u[i] == t[i - 1])
  }

  lemma InsertAfterInserts(m: Cells, q: Layout, t: seq<Word>, u: seq<Word>, k: nat, e: Word)
    requires k < |t| && Chain(m, q, t) && Apart(q, u) && Inserted(t, u, k + 1, e)
    ensures q.Link(t[k]) in m && Chain(InsertAfter(m, q, t[k], e), q, u)
  {
    var n := InsertAfterCells(m, q, t, u, k, e);
    hide Apart, InsertAfter;
    assert |t| > k + 1 ==> CellAt(q, u, |u|) == CellAt(q, t, |t|);
    CellsApart(q, u, |u|, |u|);
    forall i {:trigger CellAt(q, u, i)} | 0 <= i <= |u|
      ensures CellAt(q, u, i) in n && n[CellAt(q, u, i)] == At(u, i)
    {
      CellsApart(q, u, i, k + 1);
      CellsApart(q, u, i, k + 2);
      if i <= k {
        assert CellAt(q, u, i) == CellAt(q, t, i) && At(u, i) == At(t, i);
      } else if i > k + 2 {
        assert CellAt(q, u, i) == CellAt(q, t, i - 1) && At(u, i) == At(t, i - 1);
      }
    }
  }

  // The words that SIMPLEQ_INSERT_AFTER writes.
  lemma InsertAfterCells(m: Cells, q: Layout, t: seq<Word>, u: seq<Word>, k: nat, e: Word) returns (n: Cells)
    requires k < |t| && Chain(m, q, t) && Apart(q, u) && Inserted(t, u, k + 1, e)
    ensures q.Link(t[k]) in m && n == InsertAfter(m, q, t[k], e)
    ensures CellAt(q, u, k + 1) in n && n[CellAt(q, u, k + 1)] == e
    ensures CellAt(q, u, k + 2) in n && n[CellAt(q, u, k + 2)] == At(t, k + 1)
    ensures q.last in n && n[q.last] == if k + 1 == |t| then CellAt(q, u, k + 2) else m[q.last]
    ensures forall a | a in m && a != q.last && a != CellAt(q, u, k + 1) && a != CellAt(q, u, k + 2) ::
              a in n && n[a] == m[a]
  {
    hide Apart;
    assert CellAt(q, t, k + 1) == CellAt(q, u, k + 1) == q.Link(t[k]) && CellAt(q, u, k + 2) == q.Link(e);
    n := InsertAfter(m, q, t[k], e);
    CellsApart(q, u, k + 2, k + 1);
    CellsApart(q, u, k + 1, k + 1);
    CellsApart(q, t, k + 1, k + 1);
  }

  lemma RemoveHeadDrops(m: Cells, q: Layout, t: seq<Word>)
    requires t != [] && Chain(m, q, t)
    ensures q.first in m && q.Link(m[q.first]) in m && Chain(RemoveHead(m, q), q, t[1..])
  {
    assert CellAt(q, t, 0) == q.first && CellAt(q, t, 1) == q.Link(t[0]);
    var u, n := t[1..], RemoveHead(m, q);
    assert Apart(q, u);
    forall i {:trigger CellAt(q, u, i)} | 0 <= i <= |u|
      ensures CellAt(q, u, i) in n && n[CellAt(q, u, i)] == At(u, i)
    {
      CellsApart(q, u, i, 0);
      if i > 0 {
        assert CellAt(q, u, i) == CellAt(q, t, i + 1);
      }
    }
    assert |t| > 1 ==> CellAt(q, u, |u|) == CellAt(q, t, |t|);
  }

  lemma RemoveAfterDrops(m: Cells, q: Layout, t: seq<Word>, u: seq<Word>, k: nat)
    requires k + 1 < |t| && Chain(m, q, t) && Inserted(u, t, k + 1, t[k + 1])
    ensures q.Link(t[k]) in m && q.Link(m[q.Link(t[k])]) in m && Chain(RemoveAfter(m, q, t[k]), q, u)
  {
    hide Apart;
    var c := q.Link(t[k]);
    assert CellAt(q, t, k + 1) == CellAt(q, u, k + 1) == c && CellAt(q, t, k + 2) == q.Link(t[k + 1]);
    var n := RemoveAfter(m, q, t[k]);
    CellsApart(q, t, k + 1, k + 1);
    assert n[c] == At(t, k + 2);
    ApartWithout(q, t, u, k + 1);
    assert k + 2 < |t| ==> CellAt(q, u, |u|) == CellAt(q, t, |t|);
    forall i {:trigger CellAt(q, u, i)} | 0 <= i <= |u|
      ensures CellAt(q, u, i) in n && n[CellAt(q, u, i)] == At(u, i)
    {
      CellsApart(q, u, i, k + 1);
      assert i <= k + 1 ==> CellAt(q, u, i) == CellAt(q, t, i);
      assert i > k + 1 ==> CellAt(q, u, i) == CellAt(q, t, i + 1);
    }
  }

  lemma ApartWithout(q: Layout, t: seq<Word>, u: seq<Word>, k: nat)
    requires Apart(q, t) && k < |t| && Inserted(u, t, k, t[k])
    ensures Apart(q, u)
  {
    forall i, j | 0 <= i < j < |u|
      ensures q.Link(u[i]) != q.Link(u[j])
    {
      assert u[i] == t[if i < k then i else i + 1] && u[j] == t[if j < k then j else j + 1];
    }
    forall i | 0 <= i < |u|
      ensures u[i] != NULL && q.Link(u[i]) != q.first && q.Link(u[i]) != q.last
    {
      assert u[i] == t[if i < k then i else i + 1];
    }
  }

  // --- Lists ---

  ghost function Place(t: seq<Word>, x: Word): (k: nat)
    requires x in t
    ensures k < |t| && t[k] == x
  {
    var k :| 0 <= k < |t| && t[k] == x;
    k
  }

  // What an operation does to the list of elements.
  ghost function Listed(t: seq<Word>, op: Operation): seq<Word> {
    match op
    case OpInit(_) => []
    case OpInsertHead(e) => [e] + t
    case OpInsertTail(e) => t + [e]
    case OpInsertAfter(l, e) => if l in t then t[..Place(t, l) + 1] + [e] + t[Place(t, l) + 1..] else t
    case OpRemoveHead => if t == [] then t else t[1..]
    case OpRemoveAfter(e) =>
      if e in t && Place(t, e) + 1 < |t| then t[..Place(t, e) + 1] + t[Place(t, e) + 2..] else t
  }

  // What an operation asks of its caller: the elements it names are where it needs them,
  // and a new element's words are apart from those of the queue.
  ghost predicate Legal(q: Layout, t: seq<Word>, op: Operation) {
    match op
    case OpInit(_) => q.first != q.last
    case OpInsertHead(e) => Apart(q, Listed(t, op))
    case OpInsertTail(e) => Apart(q, Listed(t, op))
    case OpInsertAfter(l, e) => l in t && Apart(q, Listed(t, op))
    case OpRemoveHead => t != []
    case OpRemoveAfter(e) => e in t && Place(t, e) + 1 < |t|
  }

  ghost function ListedAll(t: seq<Word>, ops: seq<Operation>): seq<Word> {
    if ops == [] then t else Listed(ListedAll(t, ops[..|ops| - 1]), ops[|ops| - 1])
  }

  ghost predicate LegalAll(q: Layout, t: seq<Word>, ops: seq<Operation>) {
    forall i | 0 <= i < |ops| :: Legal(q, ListedAll(t, ops[..i]), ops[i])
  }

  lemma ListedInserts(t: seq<Word>, l: Word, e: Word)
    requires l in t
    ensures Inserted(t, Listed(t, OpInsertAfter(l, e)), Place(t, l) + 1, e)
  {
  }

  lemma ListedDrops(t: seq<Word>, e: Word)
    requires e in t && Place(t, e) + 1 < |t|
    ensures Inserted(Listed(t, OpRemoveAfter(e)), t, Place(t, e) + 1, t[Place(t, e) + 1])
  {
    var u, k := Listed(t, OpRemoveAfter(e)), Place(t, e) + 1;
    assert u == t[..k] + t[k + 1..];
    assert forall i | k < i < |t| :: u[i - 1] == t[i];
  }

  // One operation on plain links does to the chain what it does to the list.
  lemma PlainStep(m: Cells, q: Layout, t: seq<Word>, op: Operation)
    requires (op.OpInit? || Chain(m, q, t)) && Legal(q, t, op)
    ensures Chain(Apply(m, q, op), q, Listed(t, op))
  {
    hide Chain, Apart, Inserted, Init, InsertHead, InsertTail, InsertAfter, RemoveHead, RemoveAfter;
    match op
    case OpInit(_) =>
      InitIsEmpty(m, q);
    case OpInsertHead(e) =>
      InsertHeadPrepends(m, q, t, e);
    case OpInsertTail(e) =>
      LastCell(m, q, t);
      InsertTailAppends(m, q, t, e);
    case OpInsertAfter(l, e) =>
      ListedInserts(t, l, e);
      InsertAfterInserts(m, q, t, Listed(t, op), Place(t, l), e);
    case OpRemoveHead =>
      RemoveHeadDrops(m, q, t);
    case OpRemoveAfter(e) =>
      ListedDrops(t, e);
      RemoveAfterDrops(m, q, t, Listed(t, op), Place(t, e));
  }

  lemma LastCell(m: Cells, q: Layout, t: seq<Word>)
    requires Chain(m, q, t)
    ensures q.last in m
  {
  }

  // Any sequence of operations on plain links runs the list.
  lemma {:induction false} PlainRun(m: Cells, q: Layout, t: seq<Word>, ops: seq<Operation>)
    requires Chain(m, q, t) && LegalAll(q, t, ops)
    ensures Chain(ApplyAll(m, q, ops), q, ListedAll(t, ops))
  {
    if ops != [] {
      var front := ops[..|ops| - 1];
      assert forall i | 0 <= i < |front| :: ops[..i] == front[..i] && ops[i] == front[i];
      PlainRun(m, q, t, front);
      PlainStep(ApplyAll(m, q, front), q, ListedAll(t, front), ops[|ops| - 1]);
    }
  }

  // A memory holds one list only, so the list is what every traversal sees.
  lemma {:induction false} ChainIsUnique(m: Cells, q: Layout, t: seq<Word>, u: seq<Word>, n: nat)
    requires Chain(m, q, t) && Chain(m, q, u) && n <= |t|
    ensures n <= |u| && t[..n] == u[..n] && (n == |t| ==> t == u)
  {
    if n > 0 {
      ChainIsUnique(m, q, t, u, n - 1);
      assert t[..n] == t[..n - 1] + [t[n - 1]];
      assert CellAt(q, t, n - 1) == CellAt(q, u, n - 1) by {
        assert n > 1 ==> t[..n - 1][n - 2] == u[..n - 1][n - 2];
      }
      assert n <= |u| && u[..n] == u[..n - 1] + [u[n - 1]];
    }
    if n == |t| {
      assert CellAt(q, t, n) == CellAt(q, u, n) by {
        assert n > 0 ==> t[..n][n - 1] == u[..n][n - 1];
      }
      assert At(u, n) == NULL;
    }
  }

  // --- The masked ones ---

  // The words that an operation stores fit the cookie's width; with a 32-bit unsigned
  // long this says that they lie below 4 GiB.
  ghost predicate StoresFit(k: Cookie, q: Layout, op: Operation) {
    match op
    case OpInit(c) => c.narrow == k.narrow && Fits(k, q.first)
    case OpInsertHead(e) => Fits(k, e) && Fits(k, q.Link(e))
    case OpInsertTail(e) => Fits(k, e) && Fits(k, q.Link(e))
    case OpInsertAfter(_, e) => Fits(k, e) && Fits(k, q.Link(e))
    case OpRemoveHead => Fits(k, q.first)
    case OpRemoveAfter(e) => Fits(k, q.Link(e))
  }

  class Memory {
    var cells: Cells
    var cookie: Cookie // sqx_cookie of the queue at hand

    // The links as they are without the cookie.
    function Plain(): Cells
      reads this
    {
      Mask(cookie, cells)
    }

    ghost predicate Sound()
      reads this
    {
      forall a | a in cells :: Fits(cookie, cells[a])
    }

    // Storing a word as it is changes the plain links by the word's unmasked value.
    method StoreRaw(a: Word, w: Word)
      requires Sound() && Fits(cookie, w)
      modifies `cells
      ensures Sound() && cells == old(cells)[a := w] && Plain() == old(Plain())[a := Xor(cookie, w)]
    {
      hide Xor, Mask, Fits;
      cells := cells[a := w];
      MaskUpdate(cookie, old(cells), a, w);
    }

    method Store(a: Word, v: Word)
      requires Sound() && Fits(cookie, v)
      modifies `cells
      ensures Sound() && cells == old(cells)[a := Xor(cookie, v)] && Plain() == old(Plain())[a := v]
    {
      hide Xor, Mask, Fits;
      XorTwice(cookie, v);
      StoreRaw(a, Xor(cookie, v));
    }

    function Load(a: Word): (v: Word)
      requires a in cells && Sound()
      reads this
      ensures v == Plain()[a] && cells[a] == Xor(cookie, v) && Fits(cookie, v)
    {
      XorTwice(cookie, cells[a]);
      Xor(cookie, cells[a])
    }

    // Under any operation: a cell holds the plain link with the cookie's bits turned over,
    // and so shows the link itself only under a cookie that masks nothing.
    lemma CellIsMasked(a: Word, j: bv64)
      requires a in cells && Sound() && j < Width(cookie)
      ensures Bit(cells[a].bits, j) <==> (Bit(cookie.bits, j) != Bit(Plain()[a].bits, j))
      ensures cells[a] == Plain()[a] <==> Key(cookie) == 0
    {
      hide Xor, Mask, Bit, Key;
      XorTwice(cookie, cells[a]);
      MaskIsBitwise(cookie, Plain()[a], j);
      MaskHides(cookie, Plain()[a]);
    }

    // Comparing with the masked NULL compares the link with NULL.
    lemma MaskedNull(a: Word)
      requires a in cells && Sound()
      ensures cells[a] == Xor(cookie, NULL) <==> Load(a) == NULL
    {
      XorInjective(cookie, Load(a), NULL);
    }

    // XSIMPLEQ_INIT, with the cookie k drawn from arc4random_buf
    method XInit(k: Cookie, q: Layout)
      requires Sound() && k.narrow == cookie.narrow && Fits(k, q.first)
      modifies this
      ensures Sound() && cookie == k && Plain() == Init(old(Mask(k, cells)), q)
      // The first word of an empty queue is the cookie itself.
      ensures q.first in cells
      ensures q.first != q.last ==> cells[q.first] == Word(Key(k))
    {
      hide Xor, Mask;
      cookie := k;
      Store(q.first, NULL);
      Store(q.last, q.first);
      MaskHides(k, NULL);
    }

    // XSIMPLEQ_INSERT_HEAD
    method XInsertHead(q: Layout, e: Word)
      requires Sound() && q.first in cells && Fits(cookie, e) && Fits(cookie, q.Link(e))
      modifies `cells
      ensures Sound() && Plain() == InsertHead(old(Plain()), q, e)
      // Whoever reads the first word sees e only if the cookie masks nothing.
      ensures q.first in cells && (cells[q.first] == e <==> Key(cookie) == 0)
    {
      hide Xor, Mask, Fits, Key;
      MaskHides(cookie, e);
      MaskedNull(q.first);
      StoreRaw(q.Link(e), cells[q.first]);
      if cells[q.Link(e)] == Xor(cookie, NULL) {
        Store(q.last, q.Link(e));
      }
      Store(q.first, e);
    }

    // XSIMPLEQ_INSERT_TAIL
    method XInsertTail(q: Layout, e: Word)
      requires Sound() && q.last in cells && Fits(cookie, e) && Fits(cookie, q.Link(e))
      modifies `cells
      ensures Sound() && Plain() == InsertTail(old(Plain()), q, e)
    {
      hide Xor, Mask;
      Store(q.Link(e), NULL);
      Store(Load(q.last), e);
      Store(q.last, q.Link(e));
    }

    // XSIMPLEQ_INSERT_AFTER
    method XInsertAfter(q: Layout, l: Word, e: Word)
      requires Sound() && q.Link(l) in cells && Fits(cookie, e) && Fits(cookie, q.Link(e))
      modifies `cells
      ensures Sound() && Plain() == InsertAfter(old(Plain()), q, l, e)
    {
      hide Xor, Mask, Fits;
      MaskedNull(q.Link(l));
      StoreRaw(q.Link(e), cells[q.Link(l)]);
      if cells[q.Link(e)] == Xor(cookie, NULL) {
        Store(q.last, q.Link(e));
      }
      Store(q.Link(l), e);
    }

    // XSIMPLEQ_REMOVE_HEAD
    method XRemoveHead(q: Layout)
      requires Sound() && q.first in cells && q.Link(Load(q.first)) in cells && Fits(cookie, q.first)
      modifies `cells
      ensures Sound() && Plain() == RemoveHead(old(Plain()), q)
    {
      hide Xor, Mask, Fits;
      var second := q.Link(Load(q.first));
      MaskedNull(second);
      StoreRaw(q.first, cells[second]);
      if cells[q.first] == Xor(cookie, NULL) {
        Store(q.last, q.first);
      }
    }

    // XSIMPLEQ_REMOVE_AFTER
    method XRemoveAfter(q: Layout, e: Word)
      requires Sound() && q.Link(e) in cells && q.Link(Load(q.Link(e))) in cells && Fits(cookie, q.Link(e))
      modifies `cells
      ensures Sound() && Plain() == RemoveAfter(old(Plain()), q, e)
    {
      hide Xor, Mask, Fits;
      var second := q.Link(Load(q.Link(e)));
      MaskedNull(second);
      StoreRaw(q.Link(e), cells[second]);
      if cells[q.Link(e)] == Xor(cookie, NULL) {
        Store(q.last, q.Link(e));
      }
    }

    // XSIMPLEQ_FOREACH
    method XForEach(q: Layout, ghost t: seq<Word>) returns (visited: seq<Word>)
      requires Sound() && Chain(Plain(), q, t)
      ensures visited == t
    {
      hide Xor, Mask;
      visited := [];
      assert CellAt(q, t, 0) == q.first;
      var x := Load(q.first);
      while x != NULL
        invariant |visited| <= |t| && visited == t[..|visited|] && x == At(t, |visited|)
        decreases |t| - |visited|
      {
        visited := visited + [x];
        assert CellAt(q, t, |visited|) == q.Link(x);
        x := Load(q.Link(x));
      }
    }

    // A masked operation does on unmasked links what the plain one does.
    method XApply(q: Layout, op: Operation)
      requires Sound() && StoresFit(cookie, q, op)
      modifies this
      ensures Sound() && cookie == (if op.OpInit? then op.cookie else old(cookie))
      ensures Plain() == Apply(old(Mask(if op.OpInit? then op.cookie else cookie, cells)), q, op)
    {
      hide Xor, Mask, Init, InsertHead, InsertTail, InsertAfter, RemoveHead, RemoveAfter;
      match op
      case OpInit(k) =>
        XInit(k, q);
      case OpInsertHead(e) =>
        if q.first in cells {
          XInsertHead(q, e);
        }
      case OpInsertTail(e) =>
        if q.last in cells {
          XInsertTail(q, e);
        }
      case OpInsertAfter(l, e) =>
        if q.Link(l) in cells {
          XInsertAfter(q, l, e);
        }
      case OpRemoveHead =>
        if q.first in cells && q.Link(Load(q.first)) in cells {
          XRemoveHead(q);
        }
      case OpRemoveAfter(e) =>
        if q.Link(e) in cells && q.Link(Load(q.Link(e))) in cells {
          XRemoveAfter(q, e);
        }
    }

    // Any legal sequence of operations, with a new cookie at every initialisation, leaves
    // masked links that hold the same list as plain links would.
    method XRun(q: Layout, ops: seq<Operation>, ghost t: seq<Word>)
      requires Sound() && (Chain(Plain(), q, t) || (ops != [] && ops[0].OpInit?)) && LegalAll(q, t, ops)
      requires forall i | 0 <= i < |ops| :: StoresFit(cookie, q, ops[i])
      modifies this
      ensures Sound() && (Chain(Plain(), q, ListedAll(t, ops)))
    {
      hide Xor, Mask, Chain, Legal, Listed, Apply;
      for i := 0 to |ops|
        invariant Sound() && cookie.narrow == old(cookie.narrow)
        invariant i == 0 ==> cookie == old(cookie) && cells == old(cells)
        invariant i > 0 ==> Chain(Plain(), q, ListedAll(t, ops[..i]))
      {
        ghost var u := ListedAll(t, ops[..i]);
        assert ops[..i + 1][..i] == ops[..i];
        SameWidth(old(cookie), cookie, q, ops[i]);
        ghost var m := Mask(if ops[i].OpInit? then ops[i].cookie else cookie, cells);
        XApply(q, ops[i]);
        PlainStep(m, q, u, ops[i]);
      }
      assert ops[..|ops|] == ops;
    }
  }

  // What fits depends on a cookie's width alone.
  lemma SameWidth(k: Cookie, c: Cookie, q: Layout, op: Operation)
    requires k.narrow == c.narrow && StoresFit(k, q, op)
    ensures StoresFit(c, q, op)
  {
  }
}
