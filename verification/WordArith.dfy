// Carry arithmetic on 64-bit words, with the carry and the zero test computed from the
// bits alone, without a branch.
module WordArith {
  import opened Powers

  const BN_BITS2: nat := 64

  // 2^64, and the value of the top bit.
  const BASE: nat := 0x1_0000_0000_0000_0000
  const TOP: nat := 0x8000_0000_0000_0000

  lemma Base()
    ensures BASE == Pow2(BN_BITS2) && TOP == Pow2(BN_BITS2 - 1)
  {
    assert Pow2(8) == 256;
    Pow2Product(8, 8);
    Pow2Product(16, 16);
    Pow2Product(32, 32);
  }

  // A BN_ULONG.
  predicate IsWord(w: int) {
    0 <= w < BASE
  }

  // ---- Bits of a number ----

  function Bit(a: nat, k: nat): bool {
    if k == 0 then a % 2 == 1 else Bit(a / 2, k - 1)
  }

  // a >> k
  function Shr(a: nat, k: nat): nat {
    if k == 0 then a else Shr(a / 2, k - 1)
  }

  // An operator of C that works bit by bit, on n bits.
  function Bitwise(n: nat, f: (bool, bool) -> bool, a: nat, b: nat): nat {
    if n == 0 then 0
    else (if f(a % 2 == 1, b % 2 == 1) then 1 else 0) + 2 * Bitwise(n - 1, f, a / 2, b / 2)
  }

  function Conj(x: bool, y: bool): bool { x && y }
  function Disj(x: bool, y: bool): bool { x || y }
  function Flip(x: bool, y: bool): bool { !x }
  function Differ(x: bool, y: bool): bool { x != y }

  function And(a: nat, b: nat): nat { Bitwise(BN_BITS2, Conj, a, b) }
  function Or(a: nat, b: nat): nat { Bitwise(BN_BITS2, Disj, a, b) }
  function Not(a: nat): nat { Bitwise(BN_BITS2, Flip, a, 0) }

  lemma {:induction false} BitwiseIs(n: nat, f: (bool, bool) -> bool, a: nat, b: nat, k: nat)
    requires k < n
    ensures Bit(Bitwise(n, f, a, b), k) == f(Bit(a, k), Bit(b, k))
  {
    if k > 0 {
      BitwiseIs(n - 1, f, a / 2, b / 2, k - 1);
      assert Bitwise(n, f, a, b) / 2 == Bitwise(n - 1, f, a / 2, b / 2);
    }
  }

  lemma {:induction false} BitwiseRange(n: nat, f: (bool, bool) -> bool, a: nat, b: nat)
    ensures Bitwise(n, f, a, b) < Pow2(n)
  {
    if n > 0 {
      BitwiseRange(n - 1, f, a / 2, b / 2);
    }
  }

  // The top bit of an n-bit number is what a shift by n - 1 leaves.
  lemma {:induction false} TopBit(n: nat, a: nat)
    requires 0 < n && a < Pow2(n)
    ensures Bit(a, n - 1) <==> a >= Pow2(n - 1)
    ensures Shr(a, n - 1) == if a >= Pow2(n - 1) then 1 else 0
  {
    if n > 1 {
      TopBit(n - 1, a / 2);
    }
  }

  lemma {:induction false} NoBits(n: nat, f: (bool, bool) -> bool)
    requires !f(false, false)
    ensures Bitwise(n, f, 0, 0) == 0
  {
    if n > 0 {
      NoBits(n - 1, f);
    }
  }

  lemma TopOfBitwise(f: (bool, bool) -> bool, a: nat, b: nat)
    requires IsWord(a) && IsWord(b)
    ensures IsWord(Bitwise(BN_BITS2, f, a, b))
    ensures Bitwise(BN_BITS2, f, a, b) >= TOP <==> f(a >= TOP, b >= TOP)
  {
    Base();
    BitwiseRange(BN_BITS2, f, a, b);
    BitwiseIs(BN_BITS2, f, a, b, BN_BITS2 - 1);
    TopBit(BN_BITS2, a);
    TopBit(BN_BITS2, b);
    TopBit(BN_BITS2, Bitwise(BN_BITS2, f, a, b));
  }

  lemma TopOfAnd(a: nat, b: nat)
    requires IsWord(a) && IsWord(b)
    ensures IsWord(And(a, b)) && (And(a, b) >= TOP <==> a >= TOP && b >= TOP)
  {
    TopOfBitwise(Conj, a, b);
  }

  lemma TopOfOr(a: nat, b: nat)
    requires IsWord(a) && IsWord(b)
    ensures IsWord(Or(a, b)) && (Or(a, b) >= TOP <==> a >= TOP || b >= TOP)
  {
    TopOfBitwise(Disj, a, b);
  }

  lemma TopOfNot(a: nat)
    requires IsWord(a)
    ensures IsWord(Not(a)) && (Not(a) >= TOP <==> a < TOP)
  {
    TopOfBitwise(Flip, a, 0);
  }

  lemma Shifted(a: nat)
    requires IsWord(a)
    ensures Shr(a, BN_BITS2 - 1) == if a >= TOP then 1 else 0
  {
    Base();
    TopBit(BN_BITS2, a);
  }

  // ---- The zero test, twice ----

  // w - 1 in 64-bit arithmetic.
  function Pred(w: nat): nat {
    if w == 0 then BASE - 1 else w - 1
  }

  function CtNeZero(w: nat): nat {
    Shr(Or(w, Not(Pred(w))), BN_BITS2 - 1)
  }

  // The number of zero bits above the highest one bit of n bits.
  function CountLeadingZeros(n: nat, w: nat): nat {
    if n == 0 || Bit(w, n - 1) then 0 else 1 + CountLeadingZeros(n - 1, w)
  }

  function CtNeZeroClz(w: nat): nat {
    Bitwise(32, Differ, 1, Shr(CountLeadingZeros(BN_BITS2, w), 6))
  }

  lemma ZeroTest(w: nat)
    requires IsWord(w)
    ensures CtNeZero(w) == if w != 0 then 1 else 0
  {
    hide Or, Not, Shr;
    TopOfNot(Pred(w));
    TopOfOr(w, Not(Pred(w)));
    Shifted(Or(w, Not(Pred(w))));
  }

  lemma {:induction false} LeadingZeros(n: nat, w: nat)
    requires w < Pow2(n)
    ensures CountLeadingZeros(n, w) <= n
    ensures CountLeadingZeros(n, w) == n <==> w == 0
  {
    if n > 0 {
      TopBit(n, w);
      if !Bit(w, n - 1) {
        LeadingZeros(n - 1, w);
      }
    }
  }

  lemma ZeroTestsAgree(w: nat)
    requires IsWord(w)
    ensures CtNeZeroClz(w) == CtNeZero(w)
  {
    Base();
    ZeroTest(w);
    LeadingZeros(BN_BITS2, w);
    TopBit(7, CountLeadingZeros(BN_BITS2, w));
    assert Pow2(7) == 128;
    NoBits(31, Differ);
  }

  // ---- Carries ----

  // a + b in 64-bit arithmetic.
  function Add(a: nat, b: nat): nat {
    if a + b < BASE then a + b else a + b - BASE
  }

  lemma CarryFormula(a: nat, b: nat, r0: nat)
    requires IsWord(a) && IsWord(b) && r0 == Add(a, b)
    ensures Shr(Or(And(Or(a, b), Not(r0)), And(a, b)), BN_BITS2 - 1) == if a + b < BASE then 0 else 1
  {
    hide Or, And, Not, Shr;
    TopOfOr(a, b);
    TopOfAnd(a, b);
    TopOfNot(r0);
    TopOfAnd(Or(a, b), Not(r0));
    TopOfOr(And(Or(a, b), Not(r0)), And(a, b));
    Shifted(Or(And(Or(a, b), Not(r0)), And(a, b)));
  }

  method AddW(a: nat, b: nat) returns (r1: nat, r0: nat)
    requires IsWord(a) && IsWord(b)
    ensures IsWord(r0) && r1 <= 1
    ensures a + b == r1 * BASE + r0
  {
    var c1 := Or(a, b);
    var c2 := And(a, b);
    r0 := Add(a, b);
    r1 := Shr(Or(And(c1, Not(r0)), c2), BN_BITS2 - 1);
    CarryFormula(a, b, r0);
  }

  method AddWAddW(a: nat, b: nat, c: nat) returns (r1: nat, r0: nat)
    requires IsWord(a) && IsWord(b) && IsWord(c)
    ensures IsWord(r0) && r1 <= 2
    ensures a + b + c == r1 * BASE + r0
  {
    r1, r0 := AddW(a, b);
    var carry;
    carry, r0 := AddW(r0, c);
    r1 := Add(r1, carry);
  }
}
