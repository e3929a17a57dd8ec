/** The byte ring: free-running 32-bit cursors over a power-of-two buffer. */
module ByteRing {
  import opened Arithmetic
  import opened Bytes

  // ---------- 32-bit arithmetic and masks ----------

  /** Unsigned 32-bit addition and subtraction. */
  function Add32(a: nat, b: nat): (r: nat)
    requires a < TWO32 && b < TWO32
    ensures r < TWO32
  {
    if a + b < TWO32 then a + b else a + b - TWO32
  }

  function Sub32(a: nat, b: nat): (r: nat)
    requires a < TWO32 && b < TWO32
    ensures r < TWO32
  {
    if a >= b then a - b else a - b + TWO32
  }

  lemma {:induction false} Add32Wraps(a: nat, b: nat)
    requires a < TWO32 && b < TWO32
    ensures Add32(a, b) == (a + b) % TWO32
  {
  }

  /** How the cursor differences move, whatever wraps. */
  lemma {:induction false} CursorsPut(size: nat, i: nat, o: nat, n: nat)
    requires i < TWO32 && o < TWO32 && Sub32(i, o) <= size < TWO32 && n <= size - Sub32(i, o)
    ensures Add32(Sub32(size, i), o) == size - Sub32(i, o)
    ensures Add32(o, Sub32(i, o)) == i
    ensures Sub32(Add32(i, n), o) == Sub32(i, o) + n
  {
  }

  lemma {:induction false} CursorsGet(i: nat, o: nat, n: nat)
    requires i < TWO32 && o < TWO32 && n <= Sub32(i, o)
    ensures Sub32(i, Add32(o, n)) == Sub32(i, o) - n
  {
  }

  /** The bitwise `&` of two unsigned words. */
  function BitAnd(x: nat, y: nat): nat {
    if x == 0 || y == 0 then 0
    else (if x % 2 == 1 && y % 2 == 1 then 1 else 0) + 2 * BitAnd(x / 2, y / 2)
  }

  lemma {:induction false} MaskSplits(x: nat, k: nat) returns (q: nat)
    ensures x == Pow2(k) * q + BitAnd(x, Pow2(k) - 1) && BitAnd(x, Pow2(k) - 1) < Pow2(k)
  {
    if k == 0 {
      q := x;
    } else if x == 0 {
      q := 0;
    } else {
      q := MaskSplits(x / 2, k - 1);
      AndMaskBit(x, k);
      Doubled(Pow2(k - 1), q);
    }
  }

  /** Masking with 2^k - 1 takes the remainder by 2^k. */
  lemma {:induction false} AndMask(x: nat, k: nat)
    ensures BitAnd(x, Pow2(k) - 1) == x % Pow2(k)
  {
    var q := MaskSplits(x, k);
    RemainderIs(x, Pow2(k), q, BitAnd(x, Pow2(k) - 1));
  }

  lemma {:induction false} AndMaskBit(x: nat, k: nat)
    requires k > 0 && x > 0
    ensures BitAnd(x, Pow2(k) - 1) == x % 2 + 2 * BitAnd(x / 2, Pow2(k - 1) - 1)
  {
    var p := Pow2(k - 1);
    assert Pow2(k) == 2 * p && (2 * p - 1) % 2 == 1 && (2 * p - 1) / 2 == p - 1;
  }

  lemma {:induction false} AndSelf(x: nat)
    ensures BitAnd(x, x) == x
  {
    if x > 0 {
      AndSelf(x / 2);
    }
  }

  /** The test ckfifo_init uses accepts exactly the powers of two. */
  predicate IsPowerOf2(x: nat) { x != 0 && BitAnd(x, x - 1) == 0 }

  lemma {:induction false} IsPowerOf2Exact(x: nat)
    ensures IsPowerOf2(x) <==> exists k: nat :: x == Pow2(k)
  {
    if x == 0 {
    } else if x == 1 {
      assert Pow2(0) == 1;
    } else if x % 2 == 1 {
      AndSelf(x / 2);
      assert (x - 1) / 2 == x / 2;
      forall k: nat ensures x != Pow2(k) {
        if k > 0 {
          assert Pow2(k) == 2 * Pow2(k - 1);
        }
      }
    } else {
      var h := x / 2;
      IsPowerOf2Exact(h);
      assert (x - 1) / 2 == h - 1 && (x - 1) % 2 == 1;
      assert BitAnd(x, x - 1) == 2 * BitAnd(h, h - 1);
      assert IsPowerOf2(x) <==> IsPowerOf2(h);
      if IsPowerOf2(h) {
        var k: nat :| h == Pow2(k);
        assert x == Pow2(k + 1);
      } else {
        forall k: nat ensures x != Pow2(k) {
          if k > 0 {
            assert Pow2(k) == 2 * Pow2(k - 1) && h != Pow2(k - 1);
          }
        }
      }
    }
  }

  lemma {:induction false} Pow2Monotone(j: nat, k: nat)
    requires j <= k
    ensures Pow2(j) <= Pow2(k)
  {
    if j < k {
      Pow2Monotone(j, k - 1);
    }
  }

  /** Cursor wrap-around does not disturb slots: the ring size divides 2^32. */
  lemma {:induction false} WrapKeepsSlot(x: nat, k: nat)
    requires k <= 32
    ensures (x % TWO32) % Pow2(k) == x % Pow2(k)
  {
    Wrap32();
    Pow2Splits(k, 32 - k);
    NestedRemainder(x, Pow2(k), Pow2(32 - k));
  }

  lemma {:induction false} NestedRemainder(x: nat, a: nat, b: nat)
    requires a > 0 && b > 0 && a * b > 0
    ensures (x % (a * b)) % a == x % a
  {
    var y := x % (a * b);
    Divide(x, a * b);
    Divide(y, a);
    NestedQuotient(x, a, b, x / (a * b), y, y / a, y % a);
  }

  lemma {:induction false} NestedQuotient(x: nat, a: nat, b: nat, u: nat, y: nat, v: nat, r: nat)
    requires x == (a * b) * u + y && y == a * v + r && r < a
    ensures x % a == r
  {
    Regroup(a, b, u);
    Distributes(a, b * u, v);
    RemainderIs(x, a, b * u + v, r);
  }

  /** The slot `i` places after slot `q` in a ring of `size` slots. */
  function Slot(q: nat, i: nat, size: nat): nat
    requires q < size && i <= size
  {
    if q + i < size then q + i else q + i - size
  }

  /** Moving a cursor by `n` moves its slot by `n`. */
  lemma {:induction false} AdvanceSlot(c: nat, n: nat, k: nat)
    requires c < TWO32 && k <= 32 && n <= Pow2(k)
    ensures ((c + n) % TWO32) % Pow2(k) == Slot(c % Pow2(k), n, Pow2(k))
  {
    WrapKeepsSlot(c + n, k);
    var u, r := QuotRem(c, Pow2(k));
    Advanced(c, n, Pow2(k), u, r);
  }

  lemma {:induction false} Advanced(c: nat, n: nat, m: nat, u: nat, r: nat)
    requires c == m * u + r && r < m && n <= m
    ensures (c + n) % m == Slot(r, n, m)
  {
    if r + n < m {
      RemainderIs(c + n, m, u, r + n);
    } else {
      Distributes(m, u, 1);
      RemainderIs(c + n, m, u + 1, r + n - m);
    }
  }

  /** The mask keeps a cursor inside the buffer and follows its moves around the ring. */
  lemma {:induction false} MaskAdvances(c: nat, n: nat, k: nat)
    requires c < TWO32 && n < TWO32 && k <= 32 && n <= Pow2(k)
    ensures BitAnd(c, Pow2(k) - 1) < Pow2(k)
    ensures BitAnd(Add32(c, n), Pow2(k) - 1) == Slot(BitAnd(c, Pow2(k) - 1), n, Pow2(k))
  {
    AndMask(c, k);
    AndMask(Add32(c, n), k);
    Add32Wraps(c, n);
    AdvanceSlot(c, n, k);
  }

  lemma {:induction false} SizeBound(k: nat)
    requires k <= 31
    ensures Pow2(k) < TWO32
  {
    Wrap32();
    Pow2Monotone(k, 31);
  }

  /** The `len` bytes from slot `q` on, around the end of the buffer. */
  ghost function Window(b: seq<byte>, q: nat, len: nat): (s: seq<byte>)
    requires q < |b| && len <= |b|
    ensures |s| == len && forall i :: 0 <= i < len ==> s[i] == b[Slot(q, i, |b|)]
  {
    seq(len, i requires 0 <= i < len => b[Slot(q, i, |b|)])
  }

  /** `b` with `data` written into consecutive slots from `p` on, around the end. */
  function Scattered(b: seq<byte>, p: nat, data: seq<byte>): (r: seq<byte>)
    requires p < |b| && |data| <= |b|
    ensures |r| == |b|
  {
    var len := Min(|data|, |b| - p);
    Overlay(Overlay(b, p, data[..len]), 0, data[len..])
  }

  lemma {:induction false} ScatteredAt(b: seq<byte>, p: nat, data: seq<byte>, i: nat)
    requires p < |b| && |data| <= |b| && i < |b|
    ensures Scattered(b, p, data)[Slot(p, i, |b|)] == if i < |data| then data[i] else b[Slot(p, i, |b|)]
  {
  }

  /** `r` is `b` with `data` in the slots from `p` on. */
  ghost predicate Lands(r: seq<byte>, b: seq<byte>, p: nat, data: seq<byte>)
    requires p < |b|
  {
    |r| == |b| && forall j {:trigger Slot(p, j, |b|)} :: 0 <= j < |b| ==>
      r[Slot(p, j, |b|)] == if j < |data| then data[j] else b[Slot(p, j, |b|)]
  }

  lemma {:induction false} ScatteredLands(b: seq<byte>, p: nat, data: seq<byte>)
    requires p < |b| && |data| <= |b|
    ensures Lands(Scattered(b, p, data), b, p, data)
  {
    forall j | 0 <= j < |b|
      ensures Scattered(b, p, data)[Slot(p, j, |b|)] == if j < |data| then data[j] else b[Slot(p, j, |b|)]
    {
      ScatteredAt(b, p, data, j);
    }
  }

  lemma {:induction false} SlotGrows(r: seq<byte>, b: seq<byte>, q: nat, len: nat, data: seq<byte>, i: nat)
    requires q < |b| && len + |data| <= |b| && i < len + |data| && len < |b|
    requires Lands(r, b, Slot(q, len, |b|), data)
    ensures r[Slot(q, i, |b|)] == if i < len then b[Slot(q, i, |b|)] else data[i - len]
  {
    var j := if i < len then |b| - len + i else i - len;
    assert Slot(Slot(q, len, |b|), j, |b|) == Slot(q, i, |b|);
  }

  lemma {:induction false} WindowLands(r: seq<byte>, b: seq<byte>, q: nat, len: nat, data: seq<byte>)
    requires q < |b| && len + |data| <= |b| && len < |b| && Lands(r, b, Slot(q, len, |b|), data)
    ensures Window(r, q, len + |data|) == Window(b, q, len) + data
  {
    var w, v := Window(r, q, len + |data|), Window(b, q, len) + data;
    forall i | 0 <= i < |w| ensures w[i] == v[i] {
      SlotGrows(r, b, q, len, data, i);
    }
  }

  /** Writing behind a window extends it and leaves it alone. */
  lemma {:induction false} WindowGrows(b: seq<byte>, q: nat, len: nat, data: seq<byte>)
    requires q < |b| && len + |data| <= |b|
    ensures var p := Slot(q, len, |b|); Window(Scattered(b, p, data), q, len + |data|) == Window(b, q, len) + data
  {
    var p := Slot(q, len, |b|);
    if len < |b| {
      ScatteredLands(b, p, data);
      WindowLands(Scattered(b, p, data), b, q, len, data);
    } else {
      assert Scattered(b, p, data) == b;
    }
  }

  /** Dropping the front of a window moves its start. */
  lemma {:induction false} WindowShrinks(b: seq<byte>, q: nat, len: nat, n: nat)
    requires q < |b| && n <= len <= |b|
    ensures Window(b, q, len)[n..] == Window(b, Slot(q, n, |b|), len - n)
  {
  }

  /** A 32-bit power of two is 2^k with k at most 31. */
  lemma {:induction false} RingBits(size: nat) returns (k: nat)
    requires size < TWO32 && IsPowerOf2(size)
    ensures k <= 31 && size == Pow2(k)
  {
    IsPowerOf2Exact(size);
    k :| size == Pow2(k);
    if k >= 32 {
      Wrap32();
      Pow2Monotone(32, k);
    }
  }

  // ---------- the bounded queue the ring implements ----------

  datatype Op = PutOp(data: seq<byte>) | GetOp(want: nat)

  /** What one call accepts, what it returns, and what is stored after it. */
  function Accepts(size: nat, stored: seq<byte>, op: Op): seq<byte>
    requires |stored| <= size
  {
    if op.PutOp? then op.data[..Min(|op.data|, size - |stored|)] else []
  }

  function Returns(stored: seq<byte>, op: Op): seq<byte> {
    if op.GetOp? then stored[..Min(op.want, |stored|)] else []
  }

  function Stores(size: nat, stored: seq<byte>, op: Op): (r: seq<byte>)
    requires |stored| <= size
    ensures |r| <= size
    ensures Returns(stored, op) + r == stored + Accepts(size, stored, op)
  {
    if op.PutOp? then stored + Accepts(size, stored, op) else stored[Min(op.want, |stored|)..]
  }

  datatype History = History(accepted: seq<byte>, returned: seq<byte>, stored: seq<byte>)

  /** The whole history of a queue of `size` bytes that holds `stored` at the start. */
  function Queue(size: nat, stored: seq<byte>, ops: seq<Op>): (h: History)
    requires |stored| <= size
    decreases |ops|
  {
    if ops == [] then History([], [], stored)
    else
      var rest := Queue(size, Stores(size, stored, ops[0]), ops[1..]);
      History(Accepts(size, stored, ops[0]) + rest.accepted, Returns(stored, ops[0]) + rest.returned, rest.stored)
  }

  lemma {:induction false} Chained(r: seq<byte>, r': seq<byte>, end: seq<byte>, mid: seq<byte>, a': seq<byte>,
                                   start: seq<byte>, a: seq<byte>)
    requires r' + end == mid + a' && r + mid == start + a
    ensures (r + r') + end == start + (a + a')
  {
    assert (r + r') + end == r + (r' + end);
    assert r + (mid + a') == (r + mid) + a';
    assert (start + a) + a' == start + (a + a');
  }

  /** Bytes leave in the order they came, none lost, none made up, for every history. */
  lemma {:induction false} FirstInFirstOut(size: nat, stored: seq<byte>, ops: seq<Op>)
    requires |stored| <= size
    ensures var h := Queue(size, stored, ops);
      h.returned + h.stored == stored + h.accepted && |h.stored| <= size
    decreases |ops|
  {
    if ops != [] {
      var next, rest := Stores(size, stored, ops[0]), Queue(size, Stores(size, stored, ops[0]), ops[1..]);
      var a, r := Accepts(size, stored, ops[0]), Returns(stored, ops[0]);
      FirstInFirstOut(size, next, ops[1..]);
      Chained(r, rest.returned, rest.stored, next, rest.accepted, stored, a);
    }
  }

  // ---------- the ring ----------

  class Ring {
    const buffer: array<byte>
    const size: nat
    ghost const bits: nat
    var cursorIn: nat
    var cursorOut: nat

    /** _ckfifo_len: unsigned 32-bit difference of the cursors. */
    function Length(): (n: nat)
      requires cursorIn < TWO32 && cursorOut < TWO32
      reads this
    {
      Sub32(cursorIn, cursorOut)
    }

    ghost predicate Valid()
      reads this
    {
      && bits <= 31 && size == Pow2(bits) && buffer.Length == size
      && cursorIn < TWO32 && cursorOut < TWO32 && Length() <= size
    }

    /** Where a cursor points. */
    function Masked(cursor: nat): (p: nat)
      requires size == Pow2(bits) && bits <= 31 && cursor < TWO32
      ensures p < size
    {
      MaskAdvances(cursor, 0, bits);
      BitAnd(cursor, size - 1)
    }

    /** The bytes in the ring, oldest first. */
    ghost function Contents(): (s: seq<byte>)
      requires Valid()
      reads this, buffer
      ensures |s| == Length()
    {
      Window(buffer[..], Masked(cursorOut), Length())
    }

    constructor (buffer: array<byte>, ghost bits: nat)
      requires bits <= 31 && buffer.Length == Pow2(bits)
      ensures Valid() && Contents() == [] && this.buffer == buffer
    {
      this.buffer, this.size, this.bits := buffer, buffer.Length, bits;
      cursorIn, cursorOut := 0, 0;
    }

    method CopyIn(at: nat, data: seq<byte>)
      requires at + |data| <= buffer.Length
      modifies buffer
      ensures buffer[..] == Overlay(old(buffer[..]), at, data)
    {
      for i := 0 to |data|
        invariant buffer[..] == Overlay(old(buffer[..]), at, data[..i])
      {
        buffer[at + i] := data[i];
      }
      assert data[..|data|] == data;
    }

    /** The two copies of _ckfifo_put. */
    method Scatter(p: nat, data: seq<byte>)
      requires p < size == buffer.Length && |data| <= size
      modifies buffer
      ensures buffer[..] == Scattered(old(buffer[..]), p, data)
    {
      var len := Min(|data|, size - p);
      CopyIn(p, data[..len]);
      CopyIn(0, data[len..]);
    }

    /** _ckfifo_put appends as many of the bytes as there is room for. */
    method Put(data: seq<byte>) returns (n: nat)
      requires Valid() && |data| < TWO32
      modifies this`cursorIn, buffer
      ensures Valid() && n == Min(|data|, size - |old(Contents())|)
      ensures Contents() == old(Contents()) + data[..n]
    {
      SizeBound(bits);
      CursorsPut(size, cursorIn, cursorOut, 0);
      n := Min(|data|, Add32(Sub32(size, cursorIn), cursorOut));
      Append(data[..n]);
    }

    /** The copies and the cursor step of _ckfifo_put. */
    method Append(data: seq<byte>)
      requires Valid() && Length() + |data| <= size < TWO32
      modifies this`cursorIn, buffer
      ensures Valid() && Contents() == old(Contents()) + data
    {
      ghost var q, len, was := Masked(cursorOut), Length(), buffer[..];
      CursorsPut(size, cursorIn, cursorOut, |data|);
      MaskAdvances(cursorOut, len, bits);
      var p := Masked(cursorIn);
      assert p == Slot(q, len, size);
      Scatter(p, data);
      cursorIn := Add32(cursorIn, |data|);
      WindowGrows(was, q, len, data);
    }

    /** _ckfifo_get: takes out the oldest bytes. */
    method Take(want: nat) returns (out: seq<byte>)
      requires Valid() && want < TWO32
      modifies this`cursorOut
      ensures Valid() && |out| == Min(want, |old(Contents())|)
      ensures out == old(Contents())[..|out|] && Contents() == old(Contents())[|out|..]
    {
      var n := Min(want, Length());
      SizeBound(bits);
      CursorsGet(cursorIn, cursorOut, n);
      out := CopyOut(Masked(cursorOut), n);
      AdvanceOut(n);
    }

    method AdvanceOut(n: nat)
      requires Valid() && n <= Length() && size < TWO32
      modifies this`cursorOut
      ensures Valid() && Contents() == old(Contents())[n..]
    {
      MaskAdvances(cursorOut, n, bits);
      CursorsGet(cursorIn, cursorOut, n);
      WindowShrinks(buffer[..], Masked(cursorOut), Length(), n);
      cursorOut := Add32(cursorOut, n);
    }

    method CopyOut(p: nat, n: nat) returns (out: seq<byte>)
      requires p < size == buffer.Length && n <= size
      ensures |out| == n && forall len :: n <= len <= size ==> out == Window(buffer[..], p, len)[..n]
    {
      var len := Min(n, size - p);
      out := buffer[p..p + len] + buffer[..n - len];
    }

    /** ckfifo_get: an emptied ring starts over from slot 0. */
    method Get(want: nat) returns (out: seq<byte>)
      requires Valid() && want < TWO32
      modifies this`cursorIn, this`cursorOut
      ensures Valid() && |out| == Min(want, |old(Contents())|)
      ensures out == old(Contents())[..|out|] && Contents() == old(Contents())[|out|..]
    {
      out := Take(want);
      if cursorIn == cursorOut {
        cursorIn, cursorOut := 0, 0;
      }
    }

    /** Every history of calls on the ring is that history on the queue. */
    method Run(ops: seq<Op>) returns (out: seq<byte>)
      requires Valid()
      requires forall op <- ops :: if op.PutOp? then |op.data| < TWO32 else op.want < TWO32
      modifies this`cursorIn, this`cursorOut, buffer
      ensures Valid()
      ensures out == Queue(size, old(Contents()), ops).returned
      ensures Contents() == Queue(size, old(Contents()), ops).stored
      decreases |ops|
    {
      if ops == [] {
        out := [];
      } else {
        var first := [];
        ghost var was := Contents();
        match ops[0] {
          case PutOp(data) => var _ := Put(data);
          case GetOp(want) => first := Get(want);
        }
        assert first == Returns(was, ops[0]) && Contents() == Stores(size, was, ops[0]);
        out := Run(ops[1..]);
        out := first + out;
      }
    }
  }

  /** ckfifo_init: a ring over a 32-bit sized buffer, or nothing. */
  method Init(buffer: array<byte>) returns (ring: Ring?)
    requires buffer.Length < TWO32
    ensures ring != null <==> exists k: nat :: buffer.Length == Pow2(k)
    ensures ring != null ==> fresh(ring) && ring.Valid() && ring.buffer == buffer && ring.Contents() == []
  {
    IsPowerOf2Exact(buffer.Length);
    if !IsPowerOf2(buffer.Length) {
      return null;
    }
    ghost var k := RingBits(buffer.Length);
    ring := new Ring(buffer, k);
  }
}
