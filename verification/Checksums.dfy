/** Internet checksums of forged packets, RFC 1071 (RawSocket/CheckSum.cpp). */
module Checksums {
  import opened Wrappers
  import opened Buffers

  const U32 := 0x1_0000_0000

  /** The sum of the 16-bit words of a byte string; an odd last byte counts as a high byte. */
  function WordSum(b: bytes): nat
  {
    if |b| == 0 then 0
    else if |b| == 1 then 256 * (b[0] as int)
    else 256 * (b[0] as int) + b[1] as int + WordSum(b[2..])
  }

  /** CalSum, with its 32-bit accumulator. */
  method CalSum(buf: bytes) returns (sum: nat)
    ensures sum == WordSum(buf) % U32
  {
    sum := 0;
    var p: nat, len: nat := 0, |buf|;
    while len > 1
      invariant p + len == |buf| && sum < U32
      invariant (sum + WordSum(buf[p..])) % U32 == WordSum(buf) % U32
    {
      var next := sum + 256 * (buf[p] as int) + buf[p + 1] as int;
      assert buf[p..][2..] == buf[p + 2..];
      ModAdd(next, WordSum(buf[p + 2..]));
      sum := next % U32;
      p, len := p + 2, len - 2;
    }
    if len == 1 {
      assert buf[p..] == [buf[p]];
      sum := (sum + 256 * (buf[p] as int)) % U32;
    }
  }

  lemma ModAdd(x: nat, y: nat)
    ensures (x % U32 + y) % U32 == (x + y) % U32
  {
  }

  lemma {:induction false} WordSumBound(b: bytes)
    ensures WordSum(b) <= 0xFFFF * ((|b| + 1) / 2)
    decreases |b|
  {
    if |b| > 1 {
      WordSumBound(b[2..]);
    }
  }

  lemma {:induction false} WordSumSplit(a: bytes, b: bytes)
    requires |a| % 2 == 0
    ensures WordSum(a + b) == WordSum(a) + WordSum(b)
    decreases |a|
  {
    if a == [] {
      assert a + b == b;
    } else {
      assert (a + b)[2..] == a[2..] + b;
      WordSumSplit(a[2..], b);
    }
  }

  lemma OctetsSum(n: nat)
    requires n < 0x1_0000
    ensures WordSum(Octets16(n)) == n
  {
    assert Octets16(n)[2..] == [];
  }

  /** A word that was zero adds what is stored in it. */
  lemma PatchedSum(b: bytes, at: nat, n: nat)
    requires at % 2 == 0 && at + 2 <= |b| && b[at] == 0 && b[at + 1] == 0 && n < 0x1_0000
    ensures WordSum(Overwritten(b, at, Octets16(n))) == WordSum(b) + n
  {
    OctetsSum(n);
    PatchedWord(b, at, Octets16(n));
  }

  lemma PatchedWord(b: bytes, at: nat, word: bytes)
    requires at % 2 == 0 && at + 2 <= |b| && b[at] == 0 && b[at + 1] == 0 && |word| == 2
    ensures WordSum(Overwritten(b, at, word)) == WordSum(b) + WordSum(word)
  {
    var front, zeros, back := b[..at], b[at..at + 2], b[at + 2..];
    assert b == front + (zeros + back);
    Regroup(front, word, back);
    SumAround(front, zeros, back);
    SumAround(front, word, back);
    assert zeros[2..] == [];
  }

  lemma SumAround(front: bytes, word: bytes, back: bytes)
    requires |front| % 2 == 0 && |word| == 2
    ensures WordSum(front + (word + back)) == WordSum(front) + WordSum(word) + WordSum(back)
  {
    WordSumSplit(front, word + back);
    WordSumSplit(word, back);
  }

  // ---------- folding ----------

  /** One fold and one end-around carry, cut to sixteen bits. */
  function Fold(sum: nat): (f: nat)
    ensures f < 0x1_0000
  {
    var folded := sum / 0x1_0000 + sum % 0x1_0000;
    (folded + folded / 0x1_0000) % 0x1_0000
  }

  /** The checksum stored: all bits of the folded sum flipped. */
  function Checksum(sum: nat): (c: nat)
    ensures c < 0x1_0000
  {
    0xFFFF - Fold(sum)
  }

  /** A 32-bit sum needs no more than that: the result is the sum in ones' complement arithmetic. */
  lemma FoldExact(sum: nat) returns (k: nat)
    requires sum < U32
    ensures sum == 0xFFFF * k + Fold(sum) && (Fold(sum) == 0 <==> sum == 0)
  {
    var high, low := sum / 0x1_0000, sum % 0x1_0000;
    k := if high + low < 0x1_0000 then high else high + 1;
  }

  /** A sum that the checksum was added to folds to all ones. */
  lemma ChecksumCompletes(sum: nat)
    requires sum + 0xFFFF < U32
    ensures Fold(sum + Checksum(sum)) == 0xFFFF
  {
    var k := FoldExact(sum);
    var l := FoldExact(sum + Checksum(sum));
    Multiple(k + 1, l, Fold(sum + Checksum(sum)));
  }

  lemma Multiple(k: nat, l: nat, f: nat)
    requires 0xFFFF * k == 0xFFFF * l + f && 0 < f <= 0xFFFF
    ensures f == 0xFFFF
  {
    assert k > l;
  }

  /** The example of section 3 of RFC 1071: the words 0001, f203, f4f5 and f6f7 add up to 2ddf0, and the
      checksum is the complement of ddf2. */
  lemma ExampleSum()
    ensures WordSum([0x00, 0x01, 0xf2, 0x03, 0xf4, 0xf5, 0xf6, 0xf7]) == 0x2ddf0
    ensures Fold(0x2ddf0) == 0xddf2 && Checksum(0x2ddf0) == 0x220d
    ensures WordSum([0xf2]) == 0xf200
  {
    var b: bytes := [0x00, 0x01, 0xf2, 0x03, 0xf4, 0xf5, 0xf6, 0xf7];
    assert b[2..] == [0xf2, 0x03, 0xf4, 0xf5, 0xf6, 0xf7] && b[2..][2..] == [0xf4, 0xf5, 0xf6, 0xf7];
    assert b[2..][2..][2..] == [0xf6, 0xf7] && b[2..][2..][2..][2..] == [];
    assert WordSum(b[2..][2..][2..]) == 0xf6f7;
  }
}
