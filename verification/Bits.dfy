/** Bytes, words and bits. A word travels on the wires least significant bit first, so a bit sequence here
    is always LSB first: index 0 is the bit that is shifted first. */
module Bits {
  type byte = n: nat | n < 0x100
  type word = n: nat | n < 0x1_0000_0000

  function Pow2(n: nat): (p: nat)
    ensures p > 0
  {
    if n == 0 then 1 else 2 * Pow2(n - 1)
  }

  function ToInt(b: bool): (n: nat)
  {
    if b then 1 else 0
  }

  /** The low n bits of v. */
  function BitsOf(v: nat, n: nat): (bits: seq<bool>)
    ensures |bits| == n
  {
    if n == 0 then [] else [v % 2 == 1] + BitsOf(v / 2, n - 1)
  }

  function ValueOf(bits: seq<bool>): (v: nat)
    ensures v < Pow2(|bits|)
  {
    if bits == [] then 0 else ToInt(bits[0]) + 2 * ValueOf(bits[1..])
  }

  /** A 32-bit frame read as a word. */
  function WordOf(bits: seq<bool>): (w: word)
    requires |bits| == 32
  {
    Pow2Of32();
    ValueOf(bits)
  }

  function Repeat<T>(x: T, n: nat): (s: seq<T>)
    ensures |s| == n && forall i :: 0 <= i < n ==> s[i] == x
  {
    seq(n, _ => x)
  }

  lemma Pow2Of32()
    ensures Pow2(32) == 0x1_0000_0000
  {
    assert Pow2(8) == 0x100;
    assert Pow2(16) == 0x1_0000;
    assert Pow2(24) == 0x100_0000;
  }

  lemma {:induction false} BitsPrefix(v: nat, n: nat)
    ensures BitsOf(v, n + 1)[..n] == BitsOf(v, n)
  {
    if n > 0 {
      BitsPrefix(v / 2, n - 1);
    }
  }

  /** Bit i is the one of weight 2 to the i, so the least significant one comes first. */
  lemma {:induction false} BitAt(v: nat, n: nat, i: nat)
    requires i < n
    ensures BitsOf(v, n)[i] == (v / Pow2(i) % 2 == 1)
    decreases i
  {
    if i > 0 {
      BitAt(v / 2, n - 1, i - 1);
      DivTwice(v, Pow2(i - 1));
    } else {
      assert v / Pow2(0) == v;
    }
  }

  lemma DivTwice(v: nat, p: nat)
    requires p > 0
    ensures v / (2 * p) == v / 2 / p
  {
    var h, b := v / 2, v % 2;
    var q, r := h / p, h % p;
    assert h == p * q + r;
    assert 2 * p * q == 2 * (p * q);
    DivOf(q, 2 * r + b, 2 * p);
  }

  lemma DivOf(q: nat, r: nat, m: nat)
    requires r < m
    ensures (m * q + r) / m == q
  {
    ModOf(q, r, m);
    var x := m * q + r;
    assert m * (x / m) == m * q;
    assert m * (x / m - q) == 0;
    SmallMultiple(m, x / m - q);
  }

  lemma {:induction false} ValueOfBitsOf(v: nat, n: nat)
    requires v < Pow2(n)
    ensures ValueOf(BitsOf(v, n)) == v
  {
    if n > 0 {
      ValueOfBitsOf(v / 2, n - 1);
      assert BitsOf(v, n)[1..] == BitsOf(v / 2, n - 1);
    }
  }

  lemma {:induction false} BitsOfValueOf(bits: seq<bool>)
    ensures BitsOf(ValueOf(bits), |bits|) == bits
  {
    if bits != [] {
      BitsOfValueOf(bits[1..]);
      assert ValueOf(bits) / 2 == ValueOf(bits[1..]);
    }
  }

  /** Or-ing one more bit in at position |bits| adds its weight. */
  lemma {:induction false} ValueOfSnoc(bits: seq<bool>, b: bool)
    ensures ValueOf(bits + [b]) == ValueOf(bits) + ToInt(b) * Pow2(|bits|)
  {
    if bits == [] {
      assert bits + [b] == [b];
      assert ValueOf([b]) == ToInt(b) + 2 * ValueOf([]);
    } else {
      ValueOfSnoc(bits[1..], b);
      assert (bits + [b])[1..] == bits[1..] + [b];
    }
  }

  lemma {:induction false} Pow2Grows(m: nat, n: nat)
    requires m <= n
    ensures Pow2(m) <= Pow2(n)
    decreases n - m
  {
    if m < n {
      Pow2Grows(m + 1, n);
    }
  }

  lemma WordRoundTrip(v: word)
    ensures ValueOf(BitsOf(v, 32)) == v
  {
    Pow2Of32();
    ValueOfBitsOf(v, 32);
  }

  /** True when an odd number of bits is set. */
  function Odd(bits: seq<bool>): (odd: bool)
  {
    if bits == [] then false else bits[0] != Odd(bits[1..])
  }

  lemma {:induction false} OddSnoc(bits: seq<bool>, b: bool)
    ensures Odd(bits + [b]) == (Odd(bits) != b)
  {
    if bits == [] {
      assert bits + [b] == [b];
    } else {
      OddSnoc(bits[1..], b);
      assert (bits + [b])[1..] == bits[1..] + [b];
    }
  }

  lemma OddEmpty()
    ensures !Odd([]) && ValueOf([]) == 0
  {
  }

  lemma BitsStep(v: nat, n: nat)
    ensures BitsOf(v, n + 1) == [v % 2 == 1] + BitsOf(v / 2, n)
  {
  }

  /** Bitwise and. */
  function And(x: nat, y: nat): (z: nat)
    ensures z <= x && z <= y
  {
    if x == 0 || y == 0 then 0
    else (if x % 2 == 1 && y % 2 == 1 then 1 else 0) + 2 * And(x / 2, y / 2)
  }

  lemma {:induction false} AndBit(x: nat, y: nat, n: nat, i: nat)
    requires i < n
    ensures BitsOf(And(x, y), n)[i] == (BitsOf(x, n)[i] && BitsOf(y, n)[i])
    decreases i
  {
    ZeroBit(n, i);
    if x != 0 && y != 0 {
      var z := And(x, y);
      assert z / 2 == And(x / 2, y / 2) && (z % 2 == 1) == (x % 2 == 1 && y % 2 == 1);
      if i > 0 {
        AndBit(x / 2, y / 2, n - 1, i - 1);
      }
    }
  }

  lemma {:induction false} ZeroBit(n: nat, i: nat)
    requires i < n
    ensures !BitsOf(0, n)[i]
    decreases i
  {
    if i > 0 {
      ZeroBit(n - 1, i - 1);
    }
  }

  function Le32(w: word): (bs: seq<byte>)
    ensures |bs| == 4
  {
    [w % 0x100, w / 0x100 % 0x100, w / 0x1_0000 % 0x100, w / 0x100_0000]
  }

  function FromLe32(bs: seq<byte>): (w: word)
    requires |bs| == 4
  {
    bs[0] as int + 0x100 * bs[1] as int + 0x1_0000 * bs[2] as int + 0x100_0000 * bs[3] as int
  }

  /** Words and counts travel with their low bytes first. */
  lemma LowByteFirst(w: word, n: nat)
    requires n < 0x1_0000
    ensures var b := Le32(w);
      w == b[0] as int + 0x100 * b[1] as int + 0x1_0000 * b[2] as int + 0x100_0000 * b[3] as int
    ensures var b := Le16(n); n == b[0] as int + 0x100 * b[1] as int
  {
    hide Le32;
    Le32RoundTrip(w);
  }

  lemma Le32RoundTrip(w: word)
    ensures FromLe32(Le32(w)) == w
  {
  }

  function Le16(n: nat): (bs: seq<byte>)
    requires n < 0x1_0000
    ensures |bs| == 2
  {
    [n % 0x100, n / 0x100]
  }

  function FromLe16(bs: seq<byte>): (n: nat)
    requires |bs| == 2
    ensures n < 0x1_0000
  {
    bs[0] as int + 0x100 * bs[1] as int
  }

  lemma ModOf(q: int, r: nat, m: nat)
    requires r < m
    ensures (m * q + r) % m == r
  {
    var x := m * q + r;
    assert m * (x / m - q) == r - x % m;
    SmallMultiple(m, x / m - q);
  }

  lemma SmallMultiple(m: int, k: int)
    requires -m < m * k < m
    ensures k == 0
  {
  }

  lemma SmallMod(a: nat, n: nat)
    requires a < n
    ensures a % n == a
  {
  }
}
