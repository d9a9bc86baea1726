// getdelim: read one delimited piece of a stream into a buffer that doubles as needed.
module GetDelim {
  type Byte = b: int | 0 <= b < 256

  const EOF := -1

  // What the platform fixes: BUFSIZ, at least 256 by section 7.21.1 of ISO/IEC
  // 9899:2011, and SIZE_MAX.
  datatype Limits = Limits(bufsiz: nat, sizeMax: nat) {
    ghost predicate Valid() {
      256 <= bufsiz <= sizeMax
    }
  }

  // ---- What a call should deliver ----

  // The shortest prefix of d that ends in the delimiter, or all of d if it has none.
  function Piece(d: seq<Byte>, delimiter: int): (p: seq<Byte>) {
    if d == [] then []
    else if d[0] == delimiter then d[..1]
    else d[..1] + Piece(d[1..], delimiter)
  }

  // Ends in the delimiter and has it nowhere else.
  predicate Complete(p: seq<Byte>, delimiter: int) {
    && p != [] && p[|p| - 1] == delimiter
    && delimiter !in p[..|p| - 1]
  }

  lemma {:induction false} PieceIs(d: seq<Byte>, delimiter: int)
    ensures Piece(d, delimiter) <= d
    ensures delimiter in d ==> Complete(Piece(d, delimiter), delimiter)
    ensures delimiter !in d ==> Piece(d, delimiter) == d
  {
    if d != [] && d[0] != delimiter {
      PieceIs(d[1..], delimiter);
      var p := Piece(d[1..], delimiter);
      assert Piece(d, delimiter) == d[..1] + p;
      if delimiter in d {
        assert delimiter in d[1..];
        assert (d[..1] + p)[..|p|] == d[..1] + p[..|p| - 1];
      }
    }
  }

  // The other direction: a prefix of that kind is the piece.
  lemma {:induction false} PieceOf(p: seq<Byte>, rest: seq<Byte>, delimiter: int)
    requires Complete(p, delimiter) || (delimiter !in p && rest == [])
    ensures Piece(p + rest, delimiter) == p
  {
    if p == [] {
    } else if p[0] == delimiter {
      assert |p| == 1;
    } else {
      assert (p + rest)[1..] == p[1..] + rest;
      PieceOf(p[1..], rest, delimiter);
    }
  }

  lemma {:induction false} PrefixOfPiece(d: seq<Byte>, k: nat, delimiter: int)
    requires k <= |d| && delimiter !in d[..k]
    ensures d[..k] <= Piece(d, delimiter)
  {
    if k > 0 {
      assert d[..k] == d[..1] + d[1..][..k - 1];
      PrefixOfPiece(d[1..], k - 1, delimiter);
    }
  }

  // When reading stops after k bytes, at the delimiter or at the end.
  lemma PieceAt(d: seq<Byte>, k: nat, delimiter: int)
    requires 0 < k <= |d| && delimiter !in d[..k - 1]
    requires d[k - 1] == delimiter || k == |d|
    ensures Piece(d, delimiter) == d[..k]
  {
    assert d[..k] + d[k..] == d && d[..k][..k - 1] == d[..k - 1];
    assert forall b | b in d[..k] :: b in d[..k - 1] || b == d[k - 1];
    PieceOf(d[..k], d[k..], delimiter);
  }

  // ---- Repeated calls ----

  function Pieces(d: seq<Byte>, delimiter: int): (ps: seq<seq<Byte>>)
    decreases |d|
  {
    if d == [] then []
    else
      var p := Piece(d, delimiter);
      PieceIs(d, delimiter);
      [p] + Pieces(d[|p|..], delimiter)
  }

  function Joined(ps: seq<seq<Byte>>): seq<Byte> {
    if ps == [] then [] else ps[0] + Joined(ps[1..])
  }

  // A way to cut the stream d: nothing lost or reordered, the delimiter only as the
  // last byte of a piece, and only the final piece, never empty, may lack it.
  ghost predicate Splits(d: seq<Byte>, delimiter: int, ps: seq<seq<Byte>>) {
    && Joined(ps) == d
    && (forall k | 0 <= k < |ps| - 1 :: Complete(ps[k], delimiter))
    && (ps != [] ==> var last := ps[|ps| - 1];
                     Complete(last, delimiter) || (last != [] && delimiter !in last))
  }

  lemma {:induction false} PiecesSplit(d: seq<Byte>, delimiter: int)
    ensures Splits(d, delimiter, Pieces(d, delimiter))
    decreases |d|
  {
    if d != [] {
      PieceIs(d, delimiter);
      var p := Piece(d, delimiter);
      var rest := Pieces(d[|p|..], delimiter);
      PiecesSplit(d[|p|..], delimiter);
      assert d == p + d[|p|..];
      assert Pieces(d, delimiter)[1..] == rest;
    }
  }

  // There is no other way to cut it.
  lemma {:induction false} SplitIsUnique(d: seq<Byte>, delimiter: int, ps: seq<seq<Byte>>)
    requires Splits(d, delimiter, ps)
    ensures ps == Pieces(d, delimiter)
    decreases |ps|
  {
    if ps != [] {
      var rest := Joined(ps[1..]);
      assert |ps| == 1 ==> rest == [];
      PieceOf(ps[0], rest, delimiter);
      assert d[|ps[0]|..] == rest;
      SplitIsUnique(rest, delimiter, ps[1..]);
    }
  }

  // ---- The stream, the allocator and the call ----

  // Which of a series of attempts go wrong is not in the program's hands.
  ghost predicate AnyIn(bad: nat -> bool, from: nat, to: nat) {
    exists k: nat :: from <= k < to && bad(k)
  }

  lemma AnyInJoins(bad: nat -> bool, from: nat, mid: nat, to: nat)
    requires from <= mid <= to
    ensures AnyIn(bad, from, to) <==> AnyIn(bad, from, mid) || AnyIn(bad, mid, to)
  {
  }

  lemma AnyInOne(bad: nat -> bool, from: nat)
    ensures AnyIn(bad, from, from + 1) <==> bad(from)
    ensures !AnyIn(bad, from, from)
  {
  }

  class File {
    const data: seq<Byte>
    const faulty: nat -> bool // which reads fail
    var pos: nat
    var eof: bool   // feof
    var error: bool // ferror
    var fetches: nat  // how often fgetc has been called

    constructor (data: seq<Byte>, faulty: nat -> bool)
      ensures this.data == data && this.faulty == faulty
      ensures pos == 0 && !eof && !error && fetches == 0
    {
      this.data, this.faulty := data, faulty;
      pos, eof, error, fetches := 0, false, false, 0;
    }

    ghost predicate Valid()
      reads this
    {
      pos <= |data| && (eof ==> pos == |data|)
    }

    ghost function Rest(): seq<Byte>
      reads this
      requires Valid()
    {
      data[pos..]
    }

    // A read has failed since the from-th.
    ghost predicate FaultSince(from: nat)
      reads this
    {
      AnyIn(faulty, from, fetches)
    }

    // fgetc: the next byte, or EOF at the end or on a read error.
    method GetC() returns (c: int)
      requires Valid()
      modifies this
      ensures Valid() && fetches == old(fetches) + 1
      ensures c == EOF <==> faulty(old(fetches)) || old(pos) == |data|
      ensures c != EOF ==> c == data[old(pos)] && pos == old(pos) + 1 && eof == old(eof)
      ensures c == EOF ==> pos == old(pos)
      ensures c == EOF && !faulty(old(fetches)) ==> eof
      ensures faulty(old(fetches)) ==> eof == old(eof)
      ensures error == (old(error) || faulty(old(fetches)))
    {
      fetches := fetches + 1;
      if faulty(fetches - 1) {
        error := true;
        return EOF;
      }
      if pos == |data| {
        eof := true;
        return EOF;
      }
      c := data[pos];
      pos := pos + 1;
    }
  }

  class Heap {
    const denies: nat -> bool // which requests are refused
    var calls: nat            // how often realloc has been called

    constructor (denies: nat -> bool)
      ensures this.denies == denies && calls == 0
    {
      this.denies := denies;
      calls := 0;
    }

    ghost predicate DeniedSince(from: nat)
      reads this
    {
      AnyIn(denies, from, calls)
    }

    // realloc of a block of which used bytes matter: a new block that begins with them,
    // or NULL.
    method Realloc(block: array?<Byte>, used: nat, size: nat) returns (r: array?<Byte>)
      requires block != null ==> used <= block.Length && used <= size
      modifies this
      ensures calls == old(calls) + 1
      ensures r == null <==> denies(old(calls))
      ensures r != null ==> fresh(r) && r.Length == size
      ensures r != null && block != null ==> r[..used] == block[..used]
    {
      calls := calls + 1;
      if denies(calls - 1) {
        return null;
      }
      r := new Byte[size];
      if block != null {
        for k := 0 to used
          invariant calls == old(calls) + 1 && r[..k] == block[..k]
        {
          r[k] := block[k];
        }
      }
    }
  }

  // The caller's *buf and *bufsiz.
  class Line {
    const limits: Limits
    const heap: Heap
    var buf: array?<Byte>
    var bufsiz: nat
    var overflow: bool // errno was set to EOVERFLOW

    constructor (limits: Limits, heap: Heap)
      requires limits.Valid()
      ensures Valid() && buf == null && !overflow
      ensures this.limits == limits && this.heap == heap
    {
      this.limits, this.heap := limits, heap;
      buf, bufsiz, overflow := null, 0, false;
    }

    ghost predicate Valid()
      reads this
    {
      && limits.Valid() && bufsiz <= limits.sizeMax
      && (buf != null ==> bufsiz <= buf.Length)
    }

    // realloc *buf; on failure nothing changes.
    method Resize(size: nat) returns (ok: bool)
      requires Valid() && size <= limits.sizeMax
      requires buf != null ==> bufsiz <= size
      modifies this, heap
      ensures Valid() && overflow == old(overflow) && heap.calls == old(heap.calls) + 1
      ensures ok <==> !heap.denies(old(heap.calls))
      ensures !ok ==> buf == old(buf) && bufsiz == old(bufsiz)
      ensures ok ==> buf != null && fresh(buf) && bufsiz == size
      ensures ok && old(buf) != null ==> buf[..old(bufsiz)] == old(buf[..bufsiz])
    {
      var nbuf := heap.Realloc(buf, bufsiz, size);
      if nbuf == null {
        return false;
      }
      buf, bufsiz := nbuf, size;
      return true;
    }

    ghost predicate Holds(s: seq<Byte>)
      reads this, buf
    {
      buf != null && |s| <= bufsiz <= buf.Length && buf[..|s|] == s
    }

    ghost predicate Unusable()
      reads this
    {
      buf == null || bufsiz < 2
    }

    // A buffer to start with: the caller's, unless it is missing or too small.
    method Prepare() returns (ok: bool)
      requires Valid()
      modifies this, heap
      ensures Valid() && (buf == old(buf) || (buf != null && fresh(buf)))
      ensures overflow == old(overflow)
      ensures heap.calls == old(heap.calls) + if old(Unusable()) then 1 else 0
      ensures ok <==> !(old(Unusable()) && heap.denies(old(heap.calls)))
      ensures bufsiz == if ok && old(Unusable()) then limits.bufsiz else old(bufsiz)
      ensures !ok ==> buf == old(buf)
      ensures ok ==> buf != null && bufsiz >= 2 && Holds([])
    {
      if buf == null || bufsiz < 2 {
        ok := Resize(limits.bufsiz);
        return;
      }
      return true;
    }

    // Store the next byte of the stream behind those read so far.
    method Store(ptr: nat, c: Byte, ghost all: seq<Byte>)
      requires Valid() && ptr < |all| && c == all[ptr] && Holds(all[..ptr]) && ptr < bufsiz
      modifies buf
      ensures Holds(all[..ptr + 1])
    {
      buf[ptr] := c;
      assert all[..ptr + 1] == all[..ptr] + [c];
    }

    // No room to spare behind ptr bytes, and the doubled size is no size_t.
    ghost predicate Full(ptr: nat)
      reads this
    {
      ptr + 2 >= bufsiz > limits.sizeMax / 2
    }

    // With fewer than three free slots after ptr bytes, double the buffer; that fails only
    // when its size would not fit or realloc refuses.
    method MakeRoom(ptr: nat, ghost read: seq<Byte>) returns (ok: bool)
      requires Valid() && Holds(read) && |read| == ptr < bufsiz
      modifies this, heap
      ensures Valid() && Holds(read) && buf != null && (buf == old(buf) || fresh(buf))
      ensures overflow == (old(overflow) || old(Full(ptr)))
      ensures heap.calls == old(heap.calls) + if ptr + 2 >= old(bufsiz) && !old(Full(ptr)) then 1 else 0
      ensures ok <==> !old(Full(ptr)) && (ptr + 2 >= old(bufsiz) ==> !heap.denies(old(heap.calls)))
      ensures bufsiz == if ok && ptr + 2 >= old(bufsiz) then 2 * old(bufsiz) else old(bufsiz)
      ensures ok ==> ptr + 2 <= bufsiz && (old(bufsiz) >= 2 ==> ptr + 2 < bufsiz)
    {
      if ptr + 2 >= bufsiz {
        if bufsiz > limits.sizeMax / 2 {
          overflow := true;
          return false;
        }
        ok := Resize(bufsiz * 2);
        assert old(buf[..ptr]) == old(buf[..bufsiz])[..ptr];
        return;
      }
      return true;
    }

    // Of the stream all, n bytes have been consumed and r is returned: either a piece, its
    // length and a terminating NUL inside the buffer, or -1.  What was read before a
    // failure is part of the piece and in the buffer too.
    ghost predicate Outcome(all: seq<Byte>, n: int, r: int, delimiter: int)
      reads this, buf
    {
      && 0 <= n <= |all| && all[..n] <= Piece(all, delimiter)
      && (n > 0 ==> Holds(all[..n]))
      && (r != -1 ==> r == n > 0 && all[..n] == Piece(all, delimiter) && n < bufsiz && buf[n] == 0)
    }

    // After n bytes without the delimiter the buffer could not grow.
    ghost predicate TooLong(all: seq<Byte>, n: int, delimiter: int)
      reads this
    {
      0 < n <= |all| && all[n - 1] != delimiter && Full(n)
    }

    // Put the NUL behind a piece and return its length.
    method Terminate(ptr: nat, ghost all: seq<Byte>, delimiter: int) returns (r: int)
      requires Valid() && 0 < ptr <= |all| && Holds(all[..ptr]) && ptr < bufsiz
      requires delimiter !in all[..ptr - 1] && (all[ptr - 1] == delimiter || ptr == |all|)
      modifies buf
      ensures r == ptr && Outcome(all, ptr, r, delimiter)
    {
      buf[ptr] := 0;
      PieceAt(all, ptr, delimiter);
      return ptr;
    }

    lemma CutShort(all: seq<Byte>, n: nat, delimiter: int)
      requires n <= |all| && delimiter !in all[..n]
      requires n > 0 ==> Holds(all[..n])
      ensures Outcome(all, n, -1, delimiter)
    {
      PrefixOfPiece(all, n, delimiter);
    }

    // One byte more: store it, and stop at the delimiter or when the buffer cannot grow.
    method Take(ptr: nat, c: Byte, delimiter: int, ghost all: seq<Byte>) returns (stop: bool, r: int)
      requires Valid() && buf != null && ptr < |all| && c == all[ptr] && ptr + 2 <= bufsiz
      requires Holds(all[..ptr]) && delimiter !in all[..ptr]
      modifies this, buf, heap
      ensures Valid() && buf != null && (buf == old(buf) || fresh(buf))
      ensures heap.calls >= old(heap.calls)
      ensures overflow == (old(overflow) || TooLong(all, ptr + 1, delimiter))
      ensures stop && r == -1 <==> heap.DeniedSince(old(heap.calls)) || TooLong(all, ptr + 1, delimiter)
      ensures stop ==> Outcome(all, ptr + 1, r, delimiter)
      ensures !stop ==> Holds(all[..ptr + 1]) && delimiter !in all[..ptr + 1] && ptr + 3 < bufsiz
      ensures bufsiz == old(bufsiz) || bufsiz <= 2 * (ptr + 3)
    {
      hide Piece, Outcome, Holds, AnyIn;
      r := -1;
      AnyInOne(heap.denies, heap.calls);
      Store(ptr, c, all);
      assert all[..ptr + 1] == all[..ptr] + [c];
      if c == delimiter {
        r := Terminate(ptr + 1, all, delimiter);
        return true, r;
      }
      var ok := MakeRoom(ptr + 1, all[..ptr + 1]);
      if !ok {
        CutShort(all, ptr + 1, delimiter);
      }
      stop := !ok;
    }

    method GetDelim(delimiter: int, fp: File) returns (r: int)
      requires Valid() && fp.Valid()
      modifies this, buf, heap, fp
      ensures Valid() && fp.Valid()
      ensures heap.calls >= old(heap.calls) && fp.fetches >= old(fp.fetches)
      ensures buf != null && buf != old(buf) ==> fresh(buf)
      ensures Outcome(old(fp.Rest()), fp.pos - old(fp.pos), r, delimiter)
      // Failure is the end of the stream with nothing read, a failed read, a refused
      // allocation or a piece too long for any buffer, and nothing else.
      ensures r == -1 <==>
                || old(fp.Rest()) == []
                || fp.FaultSince(old(fp.fetches)) || heap.DeniedSince(old(heap.calls))
                || TooLong(old(fp.Rest()), fp.pos - old(fp.pos), delimiter)
      ensures overflow == (old(overflow) || TooLong(old(fp.Rest()), fp.pos - old(fp.pos), delimiter))
      // The buffer never grows past twice what it needs.
      ensures bufsiz in {old(bufsiz), limits.bufsiz} || bufsiz <= 2 * (fp.pos - old(fp.pos) + 2)
    {
      hide Piece, Outcome, Holds, AnyIn;
      r := EOF;
      ghost var start, all := fp.pos, fp.Rest();
      AnyInOne(heap.denies, heap.calls);
      AnyInOne(fp.faulty, fp.fetches);
      var ok := Prepare();
      if !ok {
        CutShort(all, 0, delimiter);
        return;
      }
      var ptr := 0;
      while true
        invariant r == EOF && Valid() && fp.Valid() && buf != null
        invariant buf == old(buf) || fresh(buf)
        invariant fp.pos == start + ptr && ptr + 2 <= bufsiz && (ptr > 0 ==> ptr + 2 < bufsiz)
        invariant Holds(all[..ptr]) && delimiter !in all[..ptr]
        invariant overflow == old(overflow)
        invariant heap.calls >= old(heap.calls) && !heap.DeniedSince(old(heap.calls))
        invariant fp.fetches >= old(fp.fetches) && !fp.FaultSince(old(fp.fetches))
        invariant fp.eof ==> ptr == 0
        invariant bufsiz in {old(bufsiz), limits.bufsiz} || bufsiz <= 2 * (ptr + 2)
        decreases |fp.data| - fp.pos
      {
        AnyInOne(fp.faulty, fp.fetches);
        AnyInJoins(fp.faulty, old(fp.fetches), fp.fetches, fp.fetches + 1);
        var c := fp.GetC();
        if c == EOF {
          if fp.eof && ptr != 0 {
            assert all[ptr - 1] in all[..ptr];
            r := Terminate(ptr, all, delimiter);
            return;
          }
          CutShort(all, ptr, delimiter);
          return;
        }
        ghost var calls := heap.calls;
        var stop;
        stop, r := Take(ptr, c, delimiter, all);
        AnyInJoins(heap.denies, old(heap.calls), calls, heap.calls);
        if stop {
          return;
        }
        r := EOF;
        ptr := ptr + 1;
      }
    }

    // The caller's loop, calling until -1: every piece of the stream in order, unless a
    // read failed, an allocation was refused, or a piece was too long.
    method ReadAll(delimiter: int, fp: File) returns (ps: seq<seq<Byte>>)
      requires Valid() && fp.Valid()
      modifies this, buf, heap, fp
      ensures Valid() && fp.Valid()
      ensures heap.calls >= old(heap.calls) && fp.fetches >= old(fp.fetches)
      ensures ps <= Pieces(old(fp.Rest()), delimiter)
      ensures !fp.FaultSince(old(fp.fetches)) && !heap.DeniedSince(old(heap.calls)) && !overflow ==>
                Splits(old(fp.Rest()), delimiter, ps)
      // Nothing shorter than half the address space is too long.
      ensures |old(fp.Rest())| + 2 <= limits.sizeMax / 2 ==> overflow == old(overflow)
      ensures !fp.FaultSince(old(fp.fetches)) && !heap.DeniedSince(old(heap.calls)) ==>
                (|old(fp.Rest())| + 2 <= limits.sizeMax / 2 ==> Splits(old(fp.Rest()), delimiter, ps))
    {
      hide Piece, Complete, Splits, AnyIn;
      ps := [];
      ghost var all := fp.Rest();
      PiecesSplit(all, delimiter);
      AnyInOne(heap.denies, heap.calls);
      AnyInOne(fp.faulty, fp.fetches);
      while true
        invariant Valid() && fp.Valid() && (buf == old(buf) || (buf != null && fresh(buf)))
        invariant fp.pos >= old(fp.pos) && overflow == old(overflow)
        invariant heap.calls >= old(heap.calls) && !heap.DeniedSince(old(heap.calls))
        invariant fp.fetches >= old(fp.fetches) && !fp.FaultSince(old(fp.fetches))
        invariant ps + Pieces(fp.Rest(), delimiter) == Pieces(all, delimiter)
        decreases |fp.data| - fp.pos
      {
        ghost var rest, calls, fetches := fp.Rest(), heap.calls, fp.fetches;
        var r := GetDelim(delimiter, fp);
        AnyInJoins(heap.denies, old(heap.calls), calls, heap.calls);
        AnyInJoins(fp.faulty, old(fp.fetches), fetches, fp.fetches);
        if r == -1 {
          assert rest == [] ==> ps + Pieces(rest, delimiter) == ps;
          return;
        }
        assert rest[..r] == Piece(rest, delimiter) && rest[r..] == fp.Rest();
        ps := ps + [buf[..r]];
      }
    }
  }
}
