/** The hash written out: its bit operations bit by bit, its macros statement by statement, and where every
    byte of the key goes (libnl/lib/hash.c). */
module NlHashMacros {
  import opened Wrappers
  import opened NlHash

  // ---------- bits ----------

  /** Binary digit `i`, the lowest being number 0. */
  function Bit(x: nat, i: nat): nat
  {
    if i == 0 then x % 2 else Bit(x / 2, i - 1)
  }

  /** A bit of an exclusive or is set exactly when the two bits differ. */
  lemma {:induction false} XorBitsExactly(x: nat, y: nat, bits: nat, i: nat)
    requires x < Pow2(bits) && y < Pow2(bits) && i < bits
    ensures Bit(XorBits(x, y, bits), i) == 1 <==> Bit(x, i) != Bit(y, i)
    decreases bits
  {
    var low, rest := (x % 2 + y % 2) % 2, XorBits(x / 2, y / 2, bits - 1);
    Halve(low, rest);
    if i > 0 {
      XorBitsExactly(x / 2, y / 2, bits - 1, i - 1);
    }
  }

  lemma XorExactly(x: Word, y: Word, i: nat)
    requires i < 32
    ensures Bit(Xor(x, y), i) == 1 <==> Bit(x, i) != Bit(y, i)
  {
    WordBits();
    XorBitsExactly(x, y, 32, i);
  }

  lemma {:induction false} Pow2Sum(i: nat, j: nat)
    ensures Pow2(i + j) == Pow2(i) * Pow2(j)
    decreases i
  {
    if i > 0 {
      Pow2Sum(i - 1, j);
    }
  }

  lemma Larger(q: nat, a: nat, b: nat)
    requires q >= a
    ensures q * b >= a * b
  {
  }

  lemma QuotientBelow(x: nat, a: nat, b: nat)
    requires b > 0 && x < a * b
    ensures x / b < a
  {
    var q := x / b;
    assert q * b + x % b == x;
    if q >= a {
      Larger(q, a, b);
      assert false;
    }
  }

  lemma PowersOfWord(k: nat)
    requires k <= 32
    ensures Pow2(k) * Pow2(32 - k) == 0x1_0000_0000
  {
    Pow2Sum(k, 32 - k);
    WordBits();
  }

  /** A rotation moves the upper k bits below the others. */
  lemma RotExactly(x: Word, k: nat, high: nat, low: nat)
    requires 0 < k < 32 && high == Pow2(32 - k) && low == Pow2(k)
    ensures Rot(x, k) == x % high * low + x / high
  {
    PowersOfWord(k);
    RotValue(x, high, low);
  }

  lemma RotValue(x: Word, high: nat, low: nat)
    requires high > 0 && low > 0 && low * high == 0x1_0000_0000
    ensures (x * low + x / high) % 0x1_0000_0000 == x % high * low + x / high
  {
    QuotientBelow(x, low, high);
    RotParts(x, high, low, x / high, x % high);
  }

  lemma RotParts(x: nat, high: nat, low: nat, upper: nat, lower: nat)
    requires high > 0 && low > 0 && low * high == 0x1_0000_0000
    requires x == upper * high + lower && lower < high && upper < low
    ensures (x * low + upper) % 0x1_0000_0000 == lower * low + upper
  {
    Larger(high, lower + 1, low);
    assert x * low == upper * high * low + lower * low;
    assert upper * high * low == upper * (low * high);
    Wrapped(x * low + upper, upper, lower * low + upper);
  }

  lemma Wrapped(n: nat, q: nat, r: nat)
    requires n == q * 0x1_0000_0000 + r && r < 0x1_0000_0000
    ensures n % 0x1_0000_0000 == r
  {
  }

  // ---------- macros ----------

  /** mix, line by line: each takes one word from another, turns it, and adds the third. */
  lemma MixWrittenOut(a: Word, b: Word, c: Word)
    ensures Mix(Triple(a, b, c)) ==
            var a := Xor(Sub(a, c), Rot(c, 4)); var c := Add(c, b);
            var b := Xor(Sub(b, a), Rot(a, 6)); var a := Add(a, c);
            var c := Xor(Sub(c, b), Rot(b, 8)); var b := Add(b, a);
            var a := Xor(Sub(a, c), Rot(c, 16)); var c := Add(c, b);
            var b := Xor(Sub(b, a), Rot(a, 19)); var a := Add(a, c);
            var c := Xor(Sub(c, b), Rot(b, 4)); var b := Add(b, a);
            Triple(a, b, c)
  {
  }

  /** final, line by line. */
  lemma FinalWrittenOut(a: Word, b: Word, c: Word)
    ensures Final(Triple(a, b, c)) ==
            var c := Sub(Xor(c, b), Rot(b, 14));
            var a := Sub(Xor(a, c), Rot(c, 11));
            var b := Sub(Xor(b, a), Rot(a, 25));
            var c := Sub(Xor(c, b), Rot(b, 16));
            var a := Sub(Xor(a, c), Rot(c, 4));
            var b := Sub(Xor(b, a), Rot(a, 14));
            var c := Sub(Xor(c, b), Rot(b, 24));
            Triple(a, b, c)
  {
  }

  // ---------- the bytes of the key ----------

  /** Byte `i` of the `n` from `p` on, or zero behind them. */
  function ByteOr0(key: bytes, p: nat, n: nat, i: nat): nat
    requires p + n <= |key|
  {
    if i < n then key[p + i] else 0
  }

  function FourBytes(key: bytes, p: nat, n: nat, i: nat): nat
    requires p + n <= |key|
  {
    ByteOr0(key, p, n, i) + 0x100 * ByteOr0(key, p, n, i + 1) + 0x1_0000 * ByteOr0(key, p, n, i + 2)
    + 0x100_0000 * ByteOr0(key, p, n, i + 3)
  }

  lemma LaneExactly(key: bytes, p: nat, n: nat, from: nat)
    requires p + n <= |key| && n <= 12
    ensures LanePart(key, p, n, from) == FourBytes(key, p, n, from)
  {
  }

  /** The first four of up to twelve bytes are added to a, the next four to b, and the last to c, the lowest
      first. */
  lemma AbsorbExactly(t: Triple, key: bytes, p: nat, n: nat)
    requires p + n <= |key| && n <= 12
    ensures Absorb(t, key, p, n) ==
            Triple((t.a + FourBytes(key, p, n, 0)) % 0x1_0000_0000, (t.b + FourBytes(key, p, n, 4)) % 0x1_0000_0000,
                   (t.c + FourBytes(key, p, n, 8)) % 0x1_0000_0000)
  {
    LaneExactly(key, p, n, 0);
    LaneExactly(key, p, n, 4);
    LaneExactly(key, p, n, 8);
  }

  /** An empty key is not mixed: its hash is 0xdeadbeef and the value given. */
  lemma EmptyKey(val2: Word)
    ensures Hash([], val2) == ((0xdeadbeef + val2) % 0x1_0000_0000, val2)
  {
  }

  /** What all three words start as: 0xdeadbeef, the length and the value given, added up. */
  lemma StartExactly(length: nat, val2: Word)
    ensures Add(Add(SEED, length % MODULUS), val2) == (0xdeadbeef + length + val2) % 0x1_0000_0000
  {
  }

  /** From there, the blocks are taken in; the hash is the third word at the end, and the second value the
      second. */
  lemma HashExactly(key: bytes, val2: Word, start: Word, t: Triple)
    requires key != [] && start == Add(Add(SEED, |key| % MODULUS), val2)
    requires t == Blocks(Triple(start, start, start), key, 0)
    ensures Hash(key, val2) == (t.c, t.b)
  {
  }

  /** Twelve bytes at a time are mixed in, as long as more than twelve are left, and the last block is
      finished. */
  lemma BlocksExactly(t: Triple, key: bytes, p: nat)
    requires p < |key|
    ensures Blocks(t, key, p) ==
            if |key| - p <= 12 then Final(Absorb(t, key, p, |key| - p)) else Blocks(Mix(Absorb(t, key, p, 12)), key, p + 12)
  {
  }
}
