/**
 * 32-bit words: the directory's integer attributes userAccountControl and
 * groupType are 32-bit two's-complement values, which the modelled code
 * handles as Python integers.
 */
module Words {

  /** The Python integer a 32-bit two's-complement word stands for. */
  function ToSigned(w: bv32): int {
    if w < 0x8000_0000 then w as int else w as int - 0x1_0000_0000
  }

  /** The 32-bit word of a Python integer: its value modulo 2^32. */
  function WordOf(i: int): bv32 {
    (i % 0x1_0000_0000) as bv32
  }

  /** A word read back from the integer it stands for is the same word. */
  lemma WordOfSigned(w: bv32)
    ensures WordOf(ToSigned(w)) == w
  {
    var n := w as int;
    if w < 0x8000_0000 {
      assert ToSigned(w) == n;
    } else {
      assert ToSigned(w) == n - 0x1_0000_0000;
      ModOfNegative(n);
    }
    assert n as bv32 == w;
  }

  /** `i` lies in the signed 32-bit range. */
  predicate InInt32(i: int) {
    -0x8000_0000 <= i < 0x8000_0000
  }

  lemma ModOfNegative(n: int)
    requires 0 <= n < 0x1_0000_0000
    ensures (n - 0x1_0000_0000) % 0x1_0000_0000 == n
  {
  }

  function Bit(b: bool, v: bv32): bv32 {
    if b then v else 0
  }

  /** 2 to the power `p`: Python's `1 << p`. */
  function Pow2(p: nat): (r: nat)
    ensures r >= 1
  {
    if p == 0 then 1 else 2 * Pow2(p - 1)
  }

  /** Python's `n >> p` on an unbounded integer: floor division by 2, `p` times. */
  function Shift(n: int, p: nat): (r: int)
    ensures n >= 0 ==> r >= 0
  {
    if p == 0 then n else Shift(n, p - 1) / 2
  }

  /** Bit `p` of `n` in two's complement, as Python's `n & (1 << p) != 0` reads it. */
  predicate HasBit(n: int, p: nat) {
    Shift(n, p) % 2 == 1
  }

  /** The sum of `1 << q` over the set bits `q` of `n` with `p <= q < width`. */
  function BitsFrom(n: int, p: nat, width: nat): int
    decreases width - p
  {
    if p >= width then 0 else (if HasBit(n, p) then Pow2(p) else 0) + BitsFrom(n, p + 1, width)
  }

  /** Shifting a number below `2^k` right by `q` leaves it below `2^(k-q)`. */
  lemma {:induction false} ShiftBelow(n: int, q: nat, k: nat)
    requires 0 <= n < Pow2(k) && q <= k
    ensures 0 <= Shift(n, q) < Pow2(k - q)
  {
    if q > 0 {
      ShiftBelow(n, q - 1, k);
      assert Pow2(k - q + 1) == 2 * Pow2(k - q);
    }
  }

  /** A number below `2^width` is the sum of its set bits: the binary expansion. */
  lemma {:induction false} BinaryExpansion(n: int, p: nat, width: nat)
    requires 0 <= n < Pow2(width) && p <= width
    ensures BitsFrom(n, p, width) == Shift(n, p) * Pow2(p)
    decreases width - p
  {
    if p == width {
      ShiftBelow(n, p, width);
    } else {
      BinaryExpansion(n, p + 1, width);
      assert Pow2(p + 1) == 2 * Pow2(p);
      HalfStep(Shift(n, p), Pow2(p));
    }
  }

  /** One halving step of the expansion: `m * pw` is its low bit's share plus the rest's. */
  lemma HalfStep(m: int, pw: int)
    ensures (if m % 2 == 1 then pw else 0) + (m / 2) * (2 * pw) == m * pw
  {
    var k := m / 2;
    assert m == 2 * k + m % 2;
    if m % 2 == 1 {
      calc {
        m * pw;
        (2 * k + 1) * pw;
        2 * k * pw + pw;
      }
    } else {
      calc {
        m * pw;
        (2 * k) * pw;
      }
    }
  }

  /** The binary expansion of a whole number below `2^width`. */
  lemma AllBits(n: int, width: nat)
    requires 0 <= n < Pow2(width)
    ensures BitsFrom(n, 0, width) == n
  {
    BinaryExpansion(n, 0, width);
  }

  // ---------------------------------------------------------------------------
  // Setting and clearing one bit: Python's `n | (1 << p)` and `n & ~(1 << p)`

  /** `n | (1 << p)`: bit `p` set, every other bit as in `n`. */
  function SetBit(n: int, p: nat): (r: int)
    ensures HasBit(r, p)
    ensures forall q: nat | q != p :: HasBit(r, q) == HasBit(n, q)
  {
    if HasBit(n, p) then n
    else
      FlipFrame(n, p, 1);
      n + Pow2(p)
  }

  /** `n & ~(1 << p)`: bit `p` clear, every other bit as in `n`. */
  function ClearBit(n: int, p: nat): (r: int)
    ensures !HasBit(r, p)
    ensures forall q: nat | q != p :: HasBit(r, q) == HasBit(n, q)
  {
    if HasBit(n, p) then
      FlipFrame(n, p, -1);
      n - Pow2(p)
    else n
  }

  /** Adding `c * 2^p` moves every shift at or below `p` by `c * 2^(p - q)`. */
  lemma {:induction false} ShiftAdd(n: int, c: int, p: nat, q: nat)
    requires q <= p
    ensures Shift(n + c * Pow2(p), q) == Shift(n, q) + c * Pow2(p - q)
  {
    if q > 0 {
      ShiftAdd(n, c, p, q - 1);
      var z := Pow2(p - q);
      assert Pow2(p - (q - 1)) == 2 * z;
      Twice(c, z);
      HalfShift(Shift(n, q - 1), c * z);
    }
  }

  lemma Twice(c: int, z: int)
    ensures c * (2 * z) == 2 * (c * z)
  {
  }

  lemma HalfShift(x: int, y: int)
    ensures (x + 2 * y) / 2 == x / 2 + y
  {
  }

  /** Shifting by `p` and then by `k` is shifting by `p + k`. */
  lemma {:induction false} ShiftShift(n: int, p: nat, k: nat)
    ensures Shift(Shift(n, p), k) == Shift(n, p + k)
  {
    if k > 0 {
      ShiftShift(n, p, k - 1);
    }
  }

  /** Below `p`, adding `c * 2^p` leaves every bit alone. */
  lemma FlipBelow(n: int, p: nat, c: int, q: nat)
    requires q < p
    ensures HasBit(n + c * Pow2(p), q) == HasBit(n, q)
  {
    ShiftAdd(n, c, p, q);
    var z := Pow2(p - q - 1);
    assert Pow2(p - q) == 2 * z;
    Twice(c, z);
    Parity(Shift(n, q), c * z);
  }

  lemma Parity(x: int, y: int)
    ensures (x + 2 * y) % 2 == x % 2
  {
  }

  /** Above `p`, bits depend only on the shift by `p + 1`. */
  lemma FlipAbove(m: int, n: int, p: nat, q: nat)
    requires p < q && Shift(Shift(m, p), 1) == Shift(Shift(n, p), 1)
    ensures HasBit(m, q) == HasBit(n, q)
  {
    ShiftShift(m, p, q - p);
    ShiftShift(n, p, q - p);
    ShiftShift(Shift(m, p), 1, q - p - 1);
    ShiftShift(Shift(n, p), 1, q - p - 1);
  }

  /**
   * Setting a clear bit (`c == 1`) or clearing a set bit (`c == -1`) by
   * adding `c * 2^p` flips bit `p` and no other.
   */
  lemma FlipFrame(n: int, p: nat, c: int)
    requires (c == 1 && !HasBit(n, p)) || (c == -1 && HasBit(n, p))
    ensures HasBit(n + c * Pow2(p), p) != HasBit(n, p)
    ensures forall q: nat | q != p :: HasBit(n + c * Pow2(p), q) == HasBit(n, q)
  {
    var m := n + c * Pow2(p);
    ShiftAdd(n, c, p, p);
    assert Shift(m, p) == Shift(n, p) + c;
    assert Shift(Shift(m, p), 1) == Shift(Shift(n, p), 1);
    forall q: nat | q != p
      ensures HasBit(m, q) == HasBit(n, q)
    {
      if q < p {
        FlipBelow(n, p, c, q);
      } else {
        FlipAbove(m, n, p, q);
      }
    }
  }
}
