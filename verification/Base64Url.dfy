/** Unpadded base64url (include/base64.h), section 5 of RFC 4648. */
module Base64Url {
  import opened Wrappers

  const U32 := 0x1_0000_0000

  // ---------- the alphabet ----------

  function Letter(v: nat): (c: byte)
    requires v < 64
  {
    if v < 26 then 65 + v else if v < 52 then 97 + (v - 26) else if v < 62 then 48 + (v - 52) else if v == 62 then 45 else 95
  }

  /** The table T: None for characters outside the alphabet. */
  function Value(c: byte): (v: Option<nat>)
    ensures v.Some? ==> v.value < 64 && Letter(v.value) == c
  {
    if 65 <= c <= 90 then Some(c - 65) else if 97 <= c <= 122 then Some(c - 97 + 26)
    else if 48 <= c <= 57 then Some(c - 48 + 52) else if c == 45 then Some(62) else if c == 95 then Some(63) else None
  }

  lemma LetterValue(v: nat)
    requires v < 64
    ensures Value(Letter(v)) == Some(v)
  {
  }

  // ---------- bits ----------

  /** 2 to the n, for the shifts that occur. */
  function P2(n: nat): (p: nat)
    ensures p > 0
  {
    if n == 0 then 1 else if n == 2 then 4 else if n == 4 then 16 else 64
  }

  // ---------- encoding ----------

  /** The digits of a byte string behind `k` bits of value `r` that are left over: 0, 2 or 4 of them.
      What remains at the end is filled up with zero bits. */
  function Digits(k: nat, r: nat, s: bytes): (d: seq<nat>)
    requires (k == 0 || k == 2 || k == 4) && r < P2(k)
    ensures forall i :: 0 <= i < |d| ==> d[i] < 64
    decreases |s|
  {
    if s == [] then if k == 0 then [] else [r * P2(6 - k)]
    else
      var v := r * 256 + s[0] as int;
      if k == 0 then [v / 4] + Digits(2, v % 4, s[1..])
      else if k == 2 then [v / 16] + Digits(4, v % 16, s[1..])
      else [v / 64, v % 64] + Digits(0, 0, s[1..])
  }

  function Letters(d: seq<nat>): (r: bytes)
    requires forall i :: 0 <= i < |d| ==> d[i] < 64
    ensures |r| == |d|
  {
    seq(|d|, i requires 0 <= i < |d| => Letter(d[i]))
  }

  function Encode(s: bytes): bytes
  {
    Letters(Digits(0, 0, s))
  }

  lemma {:induction false} DigitCount(k: nat, r: nat, s: bytes)
    requires (k == 0 || k == 2 || k == 4) && r < P2(k)
    ensures |Digits(k, r, s)| == (k + 8 * |s| + 5) / 6
    decreases |s|
  {
    if s != [] {
      var v := r * 256 + s[0] as int;
      if k == 0 {
        DigitCount(2, v % 4, s[1..]);
      } else if k == 2 {
        DigitCount(4, v % 16, s[1..]);
      } else {
        DigitCount(0, 0, s[1..]);
      }
    }
  }

  /** ceil(8 n / 6) letters, and no padding. */
  lemma EncodedLength(s: bytes)
    ensures |Encode(s)| == (8 * |s| + 5) / 6
  {
    DigitCount(0, 0, s);
  }

  // ---------- decoding ----------

  /** The bytes of a list of digits behind `k` bits of value `r` that are left over. */
  function Octets(k: nat, r: nat, d: seq<nat>): bytes
    requires (k == 0 || k == 2 || k == 4 || k == 6) && r < P2(k)
    requires forall i :: 0 <= i < |d| ==> d[i] < 64
    decreases |d|
  {
    if d == [] then []
    else
      var v := r * 64 + d[0];
      if k == 0 then Octets(6, v, d[1..])
      else if k == 6 then [v / 16] + Octets(4, v % 16, d[1..])
      else if k == 4 then [v / 4] + Octets(2, v % 4, d[1..])
      else [v] + Octets(0, 0, d[1..])
  }

  /** The digits before the first character outside the alphabet. */
  function Readable(s: bytes): (d: seq<nat>)
    ensures forall i :: 0 <= i < |d| ==> d[i] < 64
  {
    if s == [] || Value(s[0]).None? then [] else [Value(s[0]).value] + Readable(s[1..])
  }

  function Decode(s: bytes): bytes
  {
    Octets(0, 0, Readable(s))
  }

  // ---------- round trip ----------

  lemma {:induction false} LettersReadable(d: seq<nat>)
    requires forall i :: 0 <= i < |d| ==> d[i] < 64
    ensures Readable(Letters(d)) == d
    decreases |d|
  {
    if d != [] {
      LetterValue(d[0]);
      assert Letters(d)[1..] == Letters(d[1..]);
      LettersReadable(d[1..]);
    }
  }

  /** The decoder follows the encoder through its three states: where the encoder has 2 or 4 bits
      left over, the decoder has 6 or 4 bits of the same byte. */
  lemma {:induction false} NothingLeft(s: bytes)
    ensures Octets(0, 0, Digits(0, 0, s)) == s
    decreases |s|
  {
    if s != [] {
      var v: int := s[0];
      TwoLeft(v % 4, v / 4, s[1..]);
      assert ([v / 4] + Digits(2, v % 4, s[1..]))[1..] == Digits(2, v % 4, s[1..]);
    }
  }

  lemma SplitByte(r: nat, c: nat, high: nat)
    requires c < 256
    ensures (r * 256 + c) / 16 == 16 * r + c / 16 && (r * 256 + c) % 16 == c % 16
    ensures (high * 64 + (16 * r + c / 16)) % 16 == c / 16
    ensures r < 4 ==> (high * 64 + (16 * r + c / 16)) / 16 == 4 * high + r
  {
    var q, t := c / 16, c % 16;
    Divided(r * 256 + c, 16, 16 * r + q, t);
    Divided(high * 64 + (16 * r + q), 16, 4 * high + r, q);
  }

  lemma Divided(x: nat, m: nat, q: nat, t: nat)
    requires (m == 4 || m == 16 || m == 64) && x == m * q + t && t < m
    ensures x / m == q && x % m == t
  {
  }

  lemma {:induction false} TwoLeft(r: nat, high: nat, s: bytes)
    requires r < 4 && high < 64
    ensures Octets(6, high, Digits(2, r, s)) == [high * 4 + r] + s
    decreases |s|
  {
    if s != [] {
      var c: int := s[0];
      SplitByte(r, c, high);
      FourLeft(c % 16, c / 16, s[1..]);
      var d := 16 * r + c / 16;
      assert ([d] + Digits(4, c % 16, s[1..]))[1..] == Digits(4, c % 16, s[1..]);
    } else {
      assert [r * 16][1..] == [];
    }
  }

  lemma SplitLow(r: nat, c: nat, high: nat)
    requires c < 256 && r < 16
    ensures (r * 256 + c) / 64 == 4 * r + c / 64 && (r * 256 + c) % 64 == c % 64
    ensures (high * 64 + (4 * r + c / 64)) / 4 == 16 * high + r && (high * 64 + (4 * r + c / 64)) % 4 == c / 64
  {
    var q, t := c / 64, c % 64;
    Divided(r * 256 + c, 64, 4 * r + q, t);
    Divided(high * 64 + (4 * r + q), 4, 16 * high + r, q);
  }

  lemma {:induction false} FourLeft(r: nat, high: nat, s: bytes)
    requires r < 16 && high < 16
    ensures Octets(4, high, Digits(4, r, s)) == [high * 16 + r] + s
    decreases |s|
  {
    if s != [] {
      var c: int := s[0];
      SplitLow(r, c, high);
      NothingLeft(s[1..]);
      FourStep(high, r, 4 * r + c / 64, c, Digits(0, 0, s[1..]), s[1..]);
    } else {
      assert [r * 4][1..] == [];
    }
  }

  lemma FourStep(high: nat, r: nat, d: nat, c: nat, rest: seq<nat>, tail: bytes)
    requires high < 16 && r < 16 && c < 256 && d == 4 * r + c / 64
    requires (high * 64 + d) / 4 == 16 * high + r && (high * 64 + d) % 4 == c / 64
    requires (forall i :: 0 <= i < |rest| ==> rest[i] < 64) && Octets(0, 0, rest) == tail
    ensures Octets(4, high, [d, c % 64] + rest) == [high * 16 + r] + ([c] + tail)
  {
    var e := c % 64;
    assert ([d, e] + rest)[1..] == [e] + rest;
    LastByte(c / 64, e, c, rest, tail);
  }

  lemma LastByte(high: nat, e: nat, c: nat, rest: seq<nat>, tail: bytes)
    requires c < 256 && high == c / 64 && e == c % 64 && (forall i :: 0 <= i < |rest| ==> rest[i] < 64)
    requires Octets(0, 0, rest) == tail
    ensures Octets(2, high, [e] + rest) == [c] + tail
  {
    assert ([e] + rest)[1..] == rest;
  }

  /** What was encoded decodes to itself, for every byte string. */
  lemma RoundTrip(s: bytes)
    ensures Decode(Encode(s)) == s
  {
    LettersReadable(Digits(0, 0, s));
    NothingLeft(s);
  }

  // ---------- the loops ----------

  /** The digits that the inner loop of the encoder takes from its accumulator. */
  function Taken(val: nat, valb: int): (d: seq<nat>)
    requires -6 <= valb <= 6 && valb % 2 == 0
    ensures forall i :: 0 <= i < |d| ==> d[i] < 64
    decreases valb + 6
  {
    if valb < 0 then [] else [val / P2(valb) % 64] + Taken(val, valb - 6)
  }

  lemma WrapKeepsLow(x: nat)
    ensures x % U32 % 4096 == x % 4096 && x % U32 % 1024 == x % 1024 && x % U32 % 256 == x % 256
    ensures x % U32 % 16 == x % 16 && x % U32 % 4 == x % 4 && x % U32 % 64 == x % 64
  {
    var q := x / U32;
    assert x == q * U32 + x % U32;
    LowPart(x, q * 0x10_0000, x % U32, 4096);
    LowPart(x, q * 0x40_0000, x % U32, 1024);
    LowPart(x, q * 0x100_0000, x % U32, 256);
    LowPart(x, q * 0x1000_0000, x % U32, 16);
    LowPart(x, q * 0x4000_0000, x % U32, 4);
    LowPart(x, q * 0x400_0000, x % U32, 64);
  }

  lemma LowPart(x: nat, q: nat, y: nat, m: nat)
    requires m > 0 && x == q * m + y
    ensures x % m == y % m
  {
    var t := y / m;
    assert x == (q + t) * m + y % m;
    UniqueRemainder(x, q + t, y % m, m);
  }

  lemma UniqueRemainder(x: nat, q: nat, r: nat, m: nat)
    requires m > 0 && x == q * m + r && r < m
    ensures x % m == r
  {
    var p := x / m;
    assert x == p * m + x % m;
    LessMultiple(p, q, m);
    LessMultiple(q, p, m);
  }

  lemma {:induction false} LessMultiple(x: nat, y: nat, m: nat)
    ensures x < y ==> x * m + m <= y * m
    decreases y
  {
    if x + 1 < y {
      LessMultiple(x, y - 1, m);
      assert y * m == (y - 1) * m + m;
    } else if x + 1 == y {
      assert y * m == x * m + m;
    }
  }

  /** The wrapped accumulator still has the bits that are left over, and those of the new byte. */
  lemma Accumulated(val: nat, r: nat, k: nat, c: nat, next: nat)
    requires (k == 0 || k == 2 || k == 4) && r == val % P2(k) && c < 256 && next == (val * 256 + c) % U32
    ensures next % (256 * P2(k)) == r * 256 + c
  {
    WrapKeepsLow(val * 256 + c);
    var q := val / P2(k);
    assert val == q * P2(k) + r;
    assert val * 256 + c == q * (256 * P2(k)) + (r * 256 + c);
    LowPart(val * 256 + c, q, r * 256 + c, 256 * P2(k));
  }

  lemma HighAndLow(next: nat, v: nat, q: nat, m: nat)
    requires (m == 4 || m == 16 || m == 64) && v < 64 * m && next == q * (64 * m) + v
    ensures next / m % 64 == v / m && next % m == v % m
  {
    var t := v / m;
    Spread(q, t, m, v % m);
    UniqueQuotient(next, 64 * q + t, v % m, m);
    UniqueRemainder(64 * q + t, q, t, 64);
  }

  lemma Spread(q: nat, t: nat, m: nat, low: nat)
    ensures q * (64 * m) + (t * m + low) == (64 * q + t) * m + low
  {
  }

  lemma UniqueQuotient(x: nat, q: nat, r: nat, m: nat)
    requires m > 0 && x == q * m + r && r < m
    ensures x / m == q && x % m == r
  {
    var p := x / m;
    assert x == p * m + x % m;
    LessMultiple(p, q, m);
    LessMultiple(q, p, m);
  }

  lemma StepNone(c: byte, s: bytes, next: nat)
    requires next % 256 == c as int
    ensures Digits(0, 0, [c] + s) == Taken(next, 2) + Digits(2, next % 4, s)
  {
    HighAndLow(next, c as int, next / 256, 4);
    assert ([c] + s)[1..] == s;
    assert Taken(next, -4) == [];
  }

  lemma StepTwo(r: nat, c: byte, s: bytes, next: nat)
    requires r < 4 && next % 1024 == r * 256 + c as int
    ensures Digits(2, r, [c] + s) == Taken(next, 4) + Digits(4, next % 16, s)
  {
    HighAndLow(next, r * 256 + c as int, next / 1024, 16);
    assert ([c] + s)[1..] == s;
    assert Taken(next, -2) == [];
  }

  lemma StepFour(r: nat, c: byte, s: bytes, next: nat)
    requires r < 16 && next % 4096 == r * 256 + c as int
    ensures Digits(4, r, [c] + s) == Taken(next, 6) + Digits(0, 0, s)
  {
    HighAndLow(next, r * 256 + c as int, next / 4096, 64);
    assert ([c] + s)[1..] == s;
    assert Taken(next, -6) == [];
    assert Taken(next, 0) == [next % 64];
    assert Taken(next, 6) == [next / 64 % 64, next % 64];
  }

  lemma LettersConcat(a: seq<nat>, b: seq<nat>)
    requires (forall i :: 0 <= i < |a| ==> a[i] < 64) && (forall i :: 0 <= i < |b| ==> b[i] < 64)
    ensures Letters(a + b) == Letters(a) + Letters(b)
  {
  }

  /** One byte more, in any of the three states. */
  lemma OneByte(k: nat, r: nat, c: byte, s: bytes, next: nat, left: nat)
    requires (k == 0 || k == 2 || k == 4) && r < P2(k) && next % (256 * P2(k)) == r * 256 + c as int
    requires left == if k == 4 then 0 else k + 2
    ensures Letters(Digits(k, r, [c] + s)) == Letters(Taken(next, k + 2)) + Letters(Digits(left, next % P2(left), s))
  {
    if k == 0 {
      StepNone(c, s, next);
    } else if k == 2 {
      StepTwo(r, c, s, next);
    } else {
      StepFour(r, c, s, next);
    }
    LettersConcat(Taken(next, k + 2), Digits(left, next % P2(left), s));
  }

  /** The inner loop of the encoder. */
  method TakeDigits(out: bytes, val: nat, valb: int) returns (more: bytes, left: int)
    requires valb == 2 || valb == 4 || valb == 6
    ensures more == out + Letters(Taken(val, valb)) && left == (if valb == 6 then 0 else valb) - 6
  {
    more, left := out, valb;
    while left >= 0
      invariant (left - valb) % 6 == 0 && -6 <= left <= valb
      invariant more + Letters(Taken(val, left)) == out + Letters(Taken(val, valb))
      decreases left + 6
    {
      TakenHead(more, val, left);
      more := more + [Letter(val / P2(left) % 64)];
      left := left - 6;
    }
  }

  lemma LastDigit(val: nat, valb: int)
    requires valb == -4 || valb == -2
    ensures val * 256 % U32 / P2(valb + 8) % 64 == val % P2(valb + 6) * P2(-valb)
  {
    WrapKeepsLow(val * 256);
    if valb == -4 {
      LastOfTwo(val, val * 256 % U32, val % 4);
    } else {
      LastOfFour(val, val * 256 % U32, val % 16);
    }
  }

  lemma LastOfTwo(val: nat, next: nat, low: nat)
    requires low == val % 4 && next % 1024 == val * 256 % 1024
    ensures next / 16 % 64 == low * 16
  {
    LowPart(val * 256, val / 4, low * 256, 1024);
    HighAndLow(next, low * 256, next / 1024, 16);
  }

  lemma LastOfFour(val: nat, next: nat, low: nat)
    requires low == val % 16 && next % 4096 == val * 256 % 4096
    ensures next / 64 % 64 == low * 4
  {
    LowPart(val * 256, val / 16, low * 256, 4096);
    HighAndLow(next, low * 256, next / 4096, 64);
  }

  /** What is still to be encoded, given the accumulator. */
  ghost function Ahead(val: nat, valb: int, rest: bytes): bytes
    requires valb == -6 || valb == -4 || valb == -2
  {
    Letters(Digits(valb + 6, val % P2(valb + 6), rest))
  }

  method TakeByte(out: bytes, val: nat, valb: int, c: byte, ghost rest: bytes)
    returns (more: bytes, now: nat, left: int)
    requires valb == -6 || valb == -4 || valb == -2
    ensures left == -6 || left == -4 || left == -2
    ensures more + Ahead(now, left, rest) == out + Ahead(val, valb, [c] + rest)
  {
    ghost var k: nat := valb + 6;
    now := (val * 256 + c as int) % U32;
    Accumulated(val, val % P2(k), k, c as int, now);
    OneByte(k, val % P2(k), c, rest, now, if k == 4 then 0 else k + 2);
    more, left := TakeDigits(out, now, valb + 8);
  }

  /** base64_encode. */
  method Base64Encode(input: bytes) returns (out: bytes)
    ensures out == Encode(input)
  {
    out := [];
    var val: nat, valb: int := 0, -6;
    assert input[0..] == input;
    for i := 0 to |input|
      invariant valb == -6 || valb == -4 || valb == -2
      invariant Encode(input) == out + Ahead(val, valb, input[i..])
    {
      assert input[i..] == [input[i]] + input[i + 1..];
      out, val, valb := TakeByte(out, val, valb, input[i], input[i + 1..]);
    }
    if valb > -6 {
      LastDigit(val, valb);
      out := out + [Letter(val * 256 % U32 / P2(valb + 8) % 64)];
    }
  }

  lemma TakenHead(out: bytes, val: nat, valb: int)
    requires 0 <= valb <= 6 && valb % 2 == 0
    ensures out + Letters(Taken(val, valb)) ==
            (out + [Letter(val / P2(valb) % 64)]) + Letters(Taken(val, valb - 6))
  {
    var d := val / P2(valb) % 64;
    var rest := Taken(val, valb - 6);
    assert Letters([d] + rest) == [Letter(d)] + Letters(rest);
  }

  // ---------- decoding loop ----------

  /** Eight bits from the top of what the decoder has, and the rest. */
  lemma TopByte(next: nat, v: nat, k: nat)
    requires (k == 0 || k == 2 || k == 4) && v < 256 * P2(k) && next % (256 * P2(k)) == v
    ensures next / P2(k) % 256 == v / P2(k) && next % P2(k) == v % P2(k)
  {
    var m, q := P2(k), next / (256 * P2(k));
    var t := v / m;
    assert next == q * (256 * m) + v;
    assert next == (256 * q + t) * m + v % m;
    UniqueRemainder(next, 256 * q + t, v % m, m);
    assert next / m == 256 * q + t;
    UniqueRemainder(256 * q + t, q, t, 256);
  }

  lemma WrapKeeps(x: nat, m: nat)
    requires m == 64 || m == 256 || m == 1024 || m == 4096
    ensures x % U32 % m == x % m
  {
    WrapKeepsLow(x);
  }

  lemma Scaled(q: nat, m: nat, r: nat, d: nat)
    ensures (q * m + r) * 64 + d == q * (64 * m) + (r * 64 + d)
  {
  }

  lemma Gathered(val: nat, r: nat, k: nat, d: nat, next: nat)
    requires (k == 0 || k == 2 || k == 4 || k == 6) && r == val % P2(k) && d < 64 && next == (val * 64 + d) % U32
    ensures next % (64 * P2(k)) == r * 64 + d
  {
    var m := P2(k);
    var q := val / m;
    WrapKeeps(val * 64 + d, 64 * m);
    assert val == q * m + r;
    Scaled(q, m, r, d);
    UniqueRemainder(val * 64 + d, q, r * 64 + d, 64 * m);
  }

  /** What is still to be decoded, given the accumulator. */
  ghost function Coming(val: nat, valb: int, rest: seq<nat>): bytes
    requires valb == -8 || valb == -6 || valb == -4 || valb == -2
    requires forall i :: 0 <= i < |rest| ==> rest[i] < 64
  {
    Octets(valb + 8, val % P2(valb + 8), rest)
  }

  method TakeDigit(out: bytes, val: nat, valb: int, d: nat, ghost rest: seq<nat>)
    returns (more: bytes, now: nat, left: int)
    requires (valb == -8 || valb == -6 || valb == -4 || valb == -2) && d < 64
    requires forall i :: 0 <= i < |rest| ==> rest[i] < 64
    ensures left == -8 || left == -6 || left == -4 || left == -2
    ensures more + Coming(now, left, rest) == out + Coming(val, valb, [d] + rest)
  {
    now := (val * 64 + d) % U32;
    left := valb + 6;
    more := out;
    Gathered(val, val % P2(valb + 8), valb + 8, d, now);
    OneDigit(valb + 8, val % P2(valb + 8), d, rest, now);
    if left >= 0 {
      more := more + [now / P2(left) % 256];
      left := left - 8;
    }
  }

  /** base64_decode, up to the first character outside the alphabet. */
  method Base64Decode(input: bytes) returns (out: bytes)
    ensures out == Decode(input)
  {
    out := [];
    var val: nat, valb: int := 0, -8;
    assert input[0..] == input;
    for i := 0 to |input|
      invariant valb == -8 || valb == -6 || valb == -4 || valb == -2
      invariant Decode(input) == out + Coming(val, valb, Readable(input[i..]))
    {
      assert input[i..][1..] == input[i + 1..];
      var digit := Value(input[i]);
      if digit.None? {
        break;
      }
      out, val, valb := TakeDigit(out, val, valb, digit.value, Readable(input[i + 1..]));
    }
  }

  /** One digit more, in any of the four states. */
  lemma OneDigit(k: nat, r: nat, d: nat, rest: seq<nat>, next: nat)
    requires (k == 0 || k == 2 || k == 4 || k == 6) && r < P2(k) && d < 64 && next % (64 * P2(k)) == r * 64 + d
    requires forall i :: 0 <= i < |rest| ==> rest[i] < 64
    ensures Octets(k, r, [d] + rest) ==
            if k == 0 then Octets(6, next % 64, rest)
            else [next / P2(k - 2) % 256] + Octets(k - 2, next % P2(k - 2), rest)
  {
    assert ([d] + rest)[1..] == rest;
    if k > 0 {
      TopByte(next, r * 64 + d, k - 2);
    }
  }
}
