/** The hash function behind the cache index (libnl/lib/hash.c), on a little-endian machine. */
module NlHash {
  import opened Wrappers

  const MODULUS := 0x1_0000_0000

  /** 32-bit words; arithmetic wraps around. */
  type Word = x: int | 0 <= x < 0x1_0000_0000

  datatype Triple = Triple(a: Word, b: Word, c: Word)

  function Add(x: Word, y: Word): Word
  {
    (x + y) % MODULUS
  }

  function Sub(x: Word, y: Word): Word
  {
    (x - y) % MODULUS
  }

  function Pow2(n: nat): (p: nat)
    ensures p > 0
  {
    if n == 0 then 1 else 2 * Pow2(n - 1)
  }

  /** Bitwise exclusive or, bit by bit. */
  function XorBits(x: nat, y: nat, bits: nat): (r: nat)
    requires x < Pow2(bits) && y < Pow2(bits)
    ensures r < Pow2(bits)
    decreases bits
  {
    if bits == 0 then 0 else (x % 2 + y % 2) % 2 + 2 * XorBits(x / 2, y / 2, bits - 1)
  }

  lemma Halve(low: nat, rest: nat)
    requires low < 2
    ensures (low + 2 * rest) / 2 == rest && (low + 2 * rest) % 2 == low
  {
  }

  lemma SameBit(x: nat, y: nat)
    ensures ((x % 2 + y % 2) % 2 + y % 2) % 2 == x % 2
  {
  }

  lemma {:induction false} XorBitsTwice(x: nat, y: nat, bits: nat)
    requires x < Pow2(bits) && y < Pow2(bits)
    ensures XorBits(XorBits(x, y, bits), y, bits) == x
    decreases bits
  {
    if bits > 0 {
      var rest := XorBits(x / 2, y / 2, bits - 1);
      var low := (x % 2 + y % 2) % 2;
      XorBitsTwice(x / 2, y / 2, bits - 1);
      Halve(low, rest);
      SameBit(x, y);
    }
  }

  lemma WordBits()
    ensures Pow2(32) == MODULUS
  {
    assert Pow2(8) == 256;
    assert Pow2(16) == 0x1_0000;
    assert Pow2(24) == 0x100_0000;
  }

  function Xor(x: Word, y: Word): Word
  {
    WordBits();
    XorBits(x, y, 32)
  }

  lemma XorTwice(x: Word, y: Word)
    ensures Xor(Xor(x, y), y) == x
  {
    WordBits();
    XorBitsTwice(x, y, 32);
  }

  /** The two shifted parts do not overlap, so that their sum is their union. */
  function Rot(x: Word, k: nat): Word
    requires 0 < k < 32
  {
    (x * Pow2(k) + x / Pow2(32 - k)) % MODULUS
  }

  // ---------- mixing ----------

  /** x -= z; x ^= rot(z, k); z += y, after which the three change places. */
  function MixStep(t: Triple, k: nat): Triple
    requires 0 < k < 32
  {
    Triple(t.b, Add(t.c, t.b), Xor(Sub(t.a, t.c), Rot(t.c, k)))
  }

  function UnmixStep(t: Triple, k: nat): Triple
    requires 0 < k < 32
  {
    var z := Sub(t.b, t.a);
    Triple(Add(Xor(t.c, Rot(z, k)), z), t.a, z)
  }

  lemma AddSub(x: Word, y: Word)
    ensures Sub(Add(x, y), y) == x && Add(Sub(x, y), y) == x
  {
  }

  lemma MixStepUndone(t: Triple, k: nat)
    requires 0 < k < 32
    ensures UnmixStep(MixStep(t, k), k) == t && MixStep(UnmixStep(t, k), k) == t
  {
    AddSub(t.c, t.b);
    AddSub(t.a, t.c);
    XorTwice(Sub(t.a, t.c), Rot(t.c, k));
    var z := Sub(t.b, t.a);
    AddSub(t.b, t.a);
    AddSub(Xor(t.c, Rot(z, k)), z);
    XorTwice(t.c, Rot(z, k));
  }

  /** The mix macro: six steps, in which a, b and c take turns. */
  function Mix(t: Triple): Triple
  {
    MixStep(MixStep(MixStep(MixStep(MixStep(MixStep(t, 4), 6), 8), 16), 19), 4)
  }

  function Unmix(t: Triple): Triple
  {
    UnmixStep(UnmixStep(UnmixStep(UnmixStep(UnmixStep(UnmixStep(t, 4), 19), 16), 8), 6), 4)
  }

  /** The mix macro loses nothing: it is a bijection on triples. */
  lemma MixBijective(t: Triple)
    ensures Unmix(Mix(t)) == t && Mix(Unmix(t)) == t
  {
    MixUndone(t);
    UnmixUndone(t);
  }

  lemma MixUndone(t: Triple)
    ensures Unmix(Mix(t)) == t
  {
    var t1 := MixStep(t, 4);
    var t2 := MixStep(t1, 6);
    var t3 := MixStep(t2, 8);
    var t4 := MixStep(t3, 16);
    var t5 := MixStep(t4, 19);
    MixStepUndone(t, 4);
    MixStepUndone(t1, 6);
    MixStepUndone(t2, 8);
    MixStepUndone(t3, 16);
    MixStepUndone(t4, 19);
    MixStepUndone(t5, 4);
  }

  lemma UnmixUndone(t: Triple)
    ensures Mix(Unmix(t)) == t
  {
    var t1 := UnmixStep(t, 4);
    var t2 := UnmixStep(t1, 19);
    var t3 := UnmixStep(t2, 16);
    var t4 := UnmixStep(t3, 8);
    var t5 := UnmixStep(t4, 6);
    MixStepUndone(t, 4);
    MixStepUndone(t1, 19);
    MixStepUndone(t2, 16);
    MixStepUndone(t3, 8);
    MixStepUndone(t4, 6);
    MixStepUndone(t5, 4);
  }

  /** x ^= y; x -= rot(y, k), after which the three change places. */
  function FinalStep(t: Triple, k: nat): Triple
    requires 0 < k < 32
  {
    Triple(t.c, Sub(Xor(t.a, t.b), Rot(t.b, k)), t.b)
  }

  function UnfinalStep(t: Triple, k: nat): Triple
    requires 0 < k < 32
  {
    Triple(Xor(Add(t.b, Rot(t.c, k)), t.c), t.c, t.a)
  }

  lemma FinalStepUndone(t: Triple, k: nat)
    requires 0 < k < 32
    ensures UnfinalStep(FinalStep(t, k), k) == t && FinalStep(UnfinalStep(t, k), k) == t
  {
    AddSub(Xor(t.a, t.b), Rot(t.b, k));
    XorTwice(t.a, t.b);
    XorTwice(Add(t.b, Rot(t.c, k)), t.c);
    AddSub(t.b, Rot(t.c, k));
  }

  /** The final macro: seven steps that begin with c. */
  function Final(t: Triple): Triple
  {
    var r := FinalStep(FinalStep(FinalStep(FinalStep(FinalStep(FinalStep(FinalStep(
      Triple(t.c, t.b, t.a), 14), 11), 25), 16), 4), 14), 24);
    Triple(r.a, r.c, r.b)
  }

  function Unfinal(t: Triple): Triple
  {
    var r := UnfinalStep(UnfinalStep(UnfinalStep(UnfinalStep(UnfinalStep(UnfinalStep(UnfinalStep(
      Triple(t.a, t.c, t.b), 24), 14), 4), 16), 25), 11), 14);
    Triple(r.c, r.b, r.a)
  }

  /** So is the final macro. */
  lemma FinalBijective(t: Triple)
    ensures Unfinal(Final(t)) == t && Final(Unfinal(t)) == t
  {
    FinalUndone(Triple(t.c, t.b, t.a));
    UnfinalUndone(Triple(t.a, t.c, t.b));
  }

  lemma FinalUndone(t: Triple)
    ensures UnfinalStep(UnfinalStep(UnfinalStep(UnfinalStep(UnfinalStep(UnfinalStep(UnfinalStep(
              FinalStep(FinalStep(FinalStep(FinalStep(FinalStep(FinalStep(FinalStep(
                t, 14), 11), 25), 16), 4), 14), 24), 24), 14), 4), 16), 25), 11), 14) == t
  {
    var t1 := FinalStep(t, 14);
    var t2 := FinalStep(t1, 11);
    var t3 := FinalStep(t2, 25);
    var t4 := FinalStep(t3, 16);
    var t5 := FinalStep(t4, 4);
    var t6 := FinalStep(t5, 14);
    FinalStepUndone(t, 14);
    FinalStepUndone(t1, 11);
    FinalStepUndone(t2, 25);
    FinalStepUndone(t3, 16);
    FinalStepUndone(t4, 4);
    FinalStepUndone(t5, 14);
    FinalStepUndone(t6, 24);
  }

  lemma UnfinalUndone(t: Triple)
    ensures FinalStep(FinalStep(FinalStep(FinalStep(FinalStep(FinalStep(FinalStep(
              UnfinalStep(UnfinalStep(UnfinalStep(UnfinalStep(UnfinalStep(UnfinalStep(UnfinalStep(
                t, 24), 14), 4), 16), 25), 11), 14), 14), 11), 25), 16), 4), 14), 24) == t
  {
    var t1 := UnfinalStep(t, 24);
    var t2 := UnfinalStep(t1, 14);
    var t3 := UnfinalStep(t2, 4);
    var t4 := UnfinalStep(t3, 16);
    var t5 := UnfinalStep(t4, 25);
    var t6 := UnfinalStep(t5, 11);
    FinalStepUndone(t, 24);
    FinalStepUndone(t1, 14);
    FinalStepUndone(t2, 4);
    FinalStepUndone(t3, 16);
    FinalStepUndone(t4, 25);
    FinalStepUndone(t5, 11);
    FinalStepUndone(t6, 14);
  }

  // ---------- the hash ----------

  const SEED := 0xdeadbeef

  function ByteAt(key: bytes, p: nat): (r: nat)
    requires p < |key|
    ensures r < 256
  {
    key[p]
  }

  /** The number that `n` bytes from `p` on are, the first being the lowest. */
  function Little(key: bytes, p: nat, n: nat): (r: Word)
    requires p + n <= |key| && n <= 4
  {
    (if n > 0 then ByteAt(key, p) else 0) + (if n > 1 then 0x100 * ByteAt(key, p + 1) else 0)
    + (if n > 2 then 0x1_0000 * ByteAt(key, p + 2) else 0) + (if n > 3 then 0x100_0000 * ByteAt(key, p + 3) else 0)
  }

  /** How many of `n` bytes fall to the lane that begins at byte `from`. */
  function Lane(n: nat, from: nat): (r: nat)
    ensures r <= 4 && (r > 0 ==> from + r <= n)
  {
    if n <= from then 0 else if n - from > 4 then 4 else n - from
  }

  function LanePart(key: bytes, p: nat, n: nat, from: nat): Word
    requires p + n <= |key|
  {
    if Lane(n, from) == 0 then 0 else Little(key, p + from, Lane(n, from))
  }

  /** Up to twelve bytes are added to the three words. */
  function Absorb(t: Triple, key: bytes, p: nat, n: nat): Triple
    requires p + n <= |key| && n <= 12
  {
    Triple(Add(t.a, LanePart(key, p, n, 0)), Add(t.b, LanePart(key, p, n, 4)), Add(t.c, LanePart(key, p, n, 8)))
  }

  /** Blocks of twelve bytes from `p` on are mixed in, and the last block is finished. */
  function Blocks(t: Triple, key: bytes, p: nat): Triple
    requires p <= |key|
    decreases |key| - p
  {
    if |key| - p > 12 then Blocks(Mix(Absorb(t, key, p, 12)), key, p + 12)
    else Final(Absorb(t, key, p, |key| - p))
  }

  /** The hash and the second value; an empty key is not mixed at all. */
  function Hash(key: bytes, val2: Word): (Word, Word)
  {
    var start := Add(Add(SEED, |key| % MODULUS), val2);
    if key == [] then (start, val2)
    else
      var t := Blocks(Triple(start, start, start), key, 0);
      (t.c, t.b)
  }

  // ---------- three ways to read the key ----------

  lemma AddTwice(a: Word, x: Word, y: Word)
    requires x + y < MODULUS
    ensures Add(Add(a, x), y) == Add(a, x + y)
  {
  }

  lemma AddZero(a: Word)
    ensures Add(a, 0) == a
  {
  }

  /** Byte by byte, falling through from the highest. */
  method AddBytes(x: Word, key: bytes, p: nat, n: nat) returns (r: Word)
    requires p + n <= |key| && n <= 4
    ensures r == Add(x, Little(key, p, n))
  {
    r := x;
    AddZero(x);
    ghost var sum: nat := 0;
    if n >= 4 {
      AddTwice(x, sum, 0x100_0000 * ByteAt(key, p + 3));
      r, sum := Add(r, 0x100_0000 * ByteAt(key, p + 3)), sum + 0x100_0000 * ByteAt(key, p + 3);
    }
    if n >= 3 {
      AddTwice(x, sum, 0x1_0000 * ByteAt(key, p + 2));
      r, sum := Add(r, 0x1_0000 * ByteAt(key, p + 2)), sum + 0x1_0000 * ByteAt(key, p + 2);
    }
    if n >= 2 {
      AddTwice(x, sum, 0x100 * ByteAt(key, p + 1));
      r, sum := Add(r, 0x100 * ByteAt(key, p + 1)), sum + 0x100 * ByteAt(key, p + 1);
    }
    if n >= 1 {
      AddTwice(x, sum, ByteAt(key, p));
      r, sum := Add(r, ByteAt(key, p)), sum + ByteAt(key, p);
    }
  }

  /** A 16-bit load. */
  function LoadHalf(key: bytes, p: nat): Word
    requires p + 2 <= |key|
  {
    ByteAt(key, p) + 0x100 * ByteAt(key, p + 1)
  }

  /** Half-words where there are two bytes, and a single byte for an odd end. */
  method AddHalves(x: Word, key: bytes, p: nat, n: nat) returns (r: Word)
    requires p + n <= |key| && n <= 4
    ensures r == Add(x, Little(key, p, n))
  {
    if n == 4 {
      r := Add(x, LoadHalf(key, p) + 0x1_0000 * LoadHalf(key, p + 2));
    } else if n == 3 {
      AddTwice(x, 0x1_0000 * ByteAt(key, p + 2), LoadHalf(key, p));
      r := Add(Add(x, 0x1_0000 * ByteAt(key, p + 2)), LoadHalf(key, p));
    } else if n == 2 {
      r := Add(x, LoadHalf(key, p));
    } else if n == 1 {
      r := Add(x, ByteAt(key, p));
    } else {
      AddZero(x);
      r := x;
    }
  }

  /** A 32-bit load. */
  function LoadWord(key: bytes, p: nat): Word
    requires p + 4 <= |key|
  {
    LoadHalf(key, p) + 0x1_0000 * LoadHalf(key, p + 2)
  }

  /** Words where there are four bytes, and single bytes for a shorter end. */
  method AddWord(x: Word, key: bytes, p: nat, n: nat) returns (r: Word)
    requires p + n <= |key| && n <= 4
    ensures r == Add(x, Little(key, p, n))
  {
    if n == 4 {
      r := Add(x, LoadWord(key, p));
    } else {
      r := AddBytes(x, key, p, n);
    }
  }

  datatype Access = ByWord | ByHalf | ByByte

  method AddLane(access: Access, x: Word, key: bytes, p: nat, n: nat) returns (r: Word)
    requires p + n <= |key| && n <= 4
    ensures r == Add(x, Little(key, p, n))
  {
    match access {
      case ByWord => r := AddWord(x, key, p, n);
      case ByHalf => r := AddHalves(x, key, p, n);
      case ByByte => r := AddBytes(x, key, p, n);
    }
  }

  method AbsorbBlock(access: Access, t: Triple, key: bytes, p: nat, n: nat) returns (r: Triple)
    requires p + n <= |key| && n <= 12
    ensures r == Absorb(t, key, p, n)
  {
    var a, b, c := t.a, t.b, t.c;
    AddZero(a);
    AddZero(b);
    AddZero(c);
    if n > 8 {
      c := AddLane(access, c, key, p + 8, n - 8);
    }
    if n > 4 {
      b := AddLane(access, b, key, p + 4, if n > 8 then 4 else n - 4);
    }
    if n > 0 {
      a := AddLane(access, a, key, p, if n > 4 then 4 else n);
    }
    r := Triple(a, b, c);
  }

  /** hashlittle, reading the key as its alignment allows: the result and the second value are the
      same however it is read. */
  method HashLittle(access: Access, key: bytes, val2: Word) returns (hash: Word, second: Word)
    ensures (hash, second) == Hash(key, val2)
  {
    var start := Add(Add(SEED, |key| % MODULUS), val2);
    var t := Triple(start, start, start);
    if |key| == 0 {
      return start, val2;
    }
    var k := 0;
    ghost var whole := Blocks(t, key, 0);
    while |key| - k > 12
      invariant k <= |key| && Blocks(t, key, k) == whole
      invariant k < |key|
    {
      t := AbsorbBlock(access, t, key, k, 12);
      t := Mix(t);
      k := k + 12;
    }
    t := AbsorbBlock(access, t, key, k, |key| - k);
    t := Final(t);
    return t.c, t.b;
  }

  // ---------- no information is lost ----------

  lemma AddInjective(x: Word, y: Word, z: Word)
    requires Add(x, z) == Add(y, z)
    ensures x == y
  {
    AddSub(x, z);
    AddSub(y, z);
  }

  lemma AddInjectiveRight(x: Word, y: Word, z: Word)
    requires Add(x, y) == Add(x, z)
    ensures y == z
  {
    assert Add(y, x) == Add(x, y) && Add(z, x) == Add(x, z);
    AddInjective(y, z, x);
  }

  lemma MixInjective(x: Triple, y: Triple)
    requires Mix(x) == Mix(y)
    ensures x == y
  {
    MixUndone(x);
    MixUndone(y);
  }

  lemma FinalInjective(x: Triple, y: Triple)
    requires Final(x) == Final(y)
    ensures x == y
  {
    FinalBijective(x);
    FinalBijective(y);
  }

  lemma AbsorbInjective(t: Triple, u: Triple, key: bytes, p: nat, n: nat)
    requires p + n <= |key| && n <= 12 && Absorb(t, key, p, n) == Absorb(u, key, p, n)
    ensures t == u
  {
    AddInjective(t.a, u.a, LanePart(key, p, n, 0));
    AddInjective(t.b, u.b, LanePart(key, p, n, 4));
    AddInjective(t.c, u.c, LanePart(key, p, n, 8));
  }

  /** The rest of a key never merges two different states: hashing is a bijection of the state, for
      every key. */
  lemma {:induction false} StatesStayApart(t: Triple, u: Triple, key: bytes, p: nat)
    requires p <= |key| && Blocks(t, key, p) == Blocks(u, key, p)
    ensures t == u
    decreases |key| - p
  {
    if |key| - p > 12 {
      var m, n := BlocksGoOn(t, u, key, p);
      StatesStayApart(m, n, key, p + 12);
      SameMixed(t, u, key, p, m, n);
    } else {
      SameFinished(t, u, key, p, |key| - p);
    }
  }

  /** The states after one block. */
  ghost predicate Mixed(t: Triple, key: bytes, p: nat, m: Triple)
  {
    p + 12 <= |key| && m == Mix(Absorb(t, key, p, 12))
  }

  lemma BlocksGoOn(t: Triple, u: Triple, key: bytes, p: nat) returns (m: Triple, n: Triple)
    requires |key| - p > 12 && Blocks(t, key, p) == Blocks(u, key, p)
    ensures Mixed(t, key, p, m) && Mixed(u, key, p, n) && Blocks(m, key, p + 12) == Blocks(n, key, p + 12)
  {
    m, n := Mix(Absorb(t, key, p, 12)), Mix(Absorb(u, key, p, 12));
  }

  lemma SameMixed(t: Triple, u: Triple, key: bytes, p: nat, m: Triple, n: Triple)
    requires Mixed(t, key, p, m) && Mixed(u, key, p, n) && m == n
    ensures t == u
  {
    MixInjective(Absorb(t, key, p, 12), Absorb(u, key, p, 12));
    AbsorbInjective(t, u, key, p, 12);
  }

  lemma BlocksEnd(t: Triple, key: bytes, p: nat, n: nat)
    requires p + n == |key| && n <= 12
    ensures Blocks(t, key, p) == Final(Absorb(t, key, p, n))
  {
  }

  lemma SameFinished(t: Triple, u: Triple, key: bytes, p: nat, n: nat)
    requires p + n == |key| && n <= 12 && Blocks(t, key, p) == Blocks(u, key, p)
    ensures t == u
  {
    BlocksEnd(t, key, p, n);
    BlocksEnd(u, key, p, n);
    SameAfterFinal(t, u, key, p, n, Absorb(t, key, p, n), Absorb(u, key, p, n));
  }

  lemma SameAfterFinal(t: Triple, u: Triple, key: bytes, p: nat, n: nat, x: Triple, y: Triple)
    requires p + n == |key| && n <= 12 && Final(x) == Final(y)
    requires x == Absorb(t, key, p, n) && y == Absorb(u, key, p, n)
    ensures t == u
  {
    FinalInjective(x, y);
    AbsorbInjective(t, u, key, p, n);
  }

  lemma Digit(x: nat, y: nat, r: nat, s: nat)
    requires x < 256 && y < 256 && x + 256 * r == y + 256 * s
    ensures x == y && r == s
  {
  }

  /** The bytes above the lowest. */
  function Higher(key: bytes, p: nat, n: nat): nat
    requires p + n <= |key| && n <= 4
  {
    (if n > 1 then ByteAt(key, p + 1) else 0) + (if n > 2 then 0x100 * ByteAt(key, p + 2) else 0)
    + (if n > 3 then 0x1_0000 * ByteAt(key, p + 3) else 0)
  }

  lemma LittleInjective(x: bytes, y: bytes, p: nat, n: nat)
    requires p + n <= |x| && p + n <= |y| && n <= 4 && Little(x, p, n) == Little(y, p, n)
    ensures forall i :: p <= i < p + n ==> x[i] == y[i]
  {
    if n > 0 {
      Digit(ByteAt(x, p), ByteAt(y, p), Higher(x, p, n), Higher(y, p, n));
    }
    if n > 1 {
      Digit(ByteAt(x, p + 1), ByteAt(y, p + 1),
            (if n > 2 then ByteAt(x, p + 2) else 0) + (if n > 3 then 0x100 * ByteAt(x, p + 3) else 0),
            (if n > 2 then ByteAt(y, p + 2) else 0) + (if n > 3 then 0x100 * ByteAt(y, p + 3) else 0));
    }
    if n > 2 {
      Digit(ByteAt(x, p + 2), ByteAt(y, p + 2),
            if n > 3 then ByteAt(x, p + 3) else 0, if n > 3 then ByteAt(y, p + 3) else 0);
    }
  }

  lemma SameLane(x: bytes, y: bytes, n: nat, from: nat)
    requires |x| == |y| == n <= 12 && LanePart(x, 0, n, from) == LanePart(y, 0, n, from)
    ensures forall i :: from <= i < from + Lane(n, from) ==> x[i] == y[i]
  {
    var k := Lane(n, from);
    if k > 0 {
      LittleInjective(x, y, from, k);
    }
  }

  /** Different keys of one block and the same length end in different states. */
  lemma ShortKeysStayApart(t: Triple, x: bytes, y: bytes)
    requires |x| == |y| <= 12 && Blocks(t, x, 0) == Blocks(t, y, 0)
    ensures x == y
  {
    var n := |x|;
    FinalInjective(Absorb(t, x, 0, n), Absorb(t, y, 0, n));
    SameAbsorbed(t, x, y, n);
    SameLane(x, y, n, 0);
    SameLane(x, y, n, 4);
    SameLane(x, y, n, 8);
  }

  lemma SameAbsorbed(t: Triple, x: bytes, y: bytes, n: nat)
    requires |x| == |y| == n <= 12 && Absorb(t, x, 0, n) == Absorb(t, y, 0, n)
    ensures LanePart(x, 0, n, 0) == LanePart(y, 0, n, 0)
    ensures LanePart(x, 0, n, 4) == LanePart(y, 0, n, 4)
    ensures LanePart(x, 0, n, 8) == LanePart(y, 0, n, 8)
  {
    AddInjectiveRight(t.a, LanePart(x, 0, n, 0), LanePart(y, 0, n, 0));
    AddInjectiveRight(t.b, LanePart(x, 0, n, 4), LanePart(y, 0, n, 4));
    AddInjectiveRight(t.c, LanePart(x, 0, n, 8), LanePart(y, 0, n, 8));
  }
}
