/** What a chunk size line says, digit by digit (cpp-httplib/include/cpp-httplib/httplib.h), section 4.1 of
    RFC 7230. */
module HttpSizes {
  import opened Wrappers
  import opened HttpChunked
  import opened HttpBodies

  const LOWER := "0123456789abcdef"
  const UPPER := "0123456789ABCDEF"

  /** The characters are these digits, each in either case. */
  ghost predicate Spells(s: bytes, digits: seq<nat>)
  {
    && |s| == |digits|
    && forall i :: 0 <= i < |s| ==> digits[i] < 16 && (s[i] == LOWER[digits[i]] as int || s[i] == UPPER[digits[i]] as int)
  }

  ghost predicate IsDigit(c: byte)
  {
    exists d :: 0 <= d < 16 && (c == LOWER[d] as int || c == UPPER[d] as int)
  }

  function Power(n: nat): nat
  {
    if n == 0 then 1 else 16 * Power(n - 1)
  }

  /** The value of digits, the highest first: every digit counts sixteen times as much as the next. */
  function Positional(digits: seq<nat>): nat
  {
    if digits == [] then 0 else digits[0] * Power(|digits| - 1) + Positional(digits[1..])
  }

  ghost predicate Space(c: byte)
  {
    c == 32 || 9 <= c <= 13
  }

  // ---------- the digits ----------

  lemma DigitExactly(c: byte, d: nat)
    requires d < 16
    ensures HexValue(c) == Some(d) <==> c == LOWER[d] as int || c == UPPER[d] as int
  {
  }

  lemma IsDigitExactly(c: byte)
    ensures HexValue(c).Some? <==> IsDigit(c)
  {
    if HexValue(c).Some? {
      DigitExactly(c, HexValue(c).value);
    }
    if IsDigit(c) {
      var d :| 0 <= d < 16 && (c == LOWER[d] as int || c == UPPER[d] as int);
      DigitExactly(c, d);
    }
  }

  /** What is converted ends before the first octet that is no digit. */
  ghost predicate NoDigitFirst(after: bytes)
  {
    after != [] ==> !IsDigit(after[0])
  }

  lemma {:induction false} DigitsValue(s: bytes, digits: seq<nat>, after: bytes, acc: nat)
    requires Spells(s, digits) && NoDigitFirst(after)
    ensures DigitsFrom(s + after, acc) == acc * Power(|s|) + Positional(digits)
    decreases |s|
  {
    if s == [] {
      assert s + after == after;
      if after != [] {
        IsDigitExactly(after[0]);
      }
    } else {
      DigitExactly(s[0], digits[0]);
      assert (s + after)[1..] == s[1..] + after;
      DigitsValue(s[1..], digits[1..], after, acc * 16 + digits[0]);
      Shifted(acc, digits[0], Power(|s| - 1));
    }
  }

  lemma Shifted(acc: nat, d: nat, power: nat)
    ensures (acc * 16 + d) * power == acc * (16 * power) + d * power
  {
  }

  // ---------- the whole line ----------

  /** A line that starts with a number: spaces, a sign or none, "0x" or not, and at least one digit. */
  datatype Line = Line(spaces: bytes, sign: bytes, prefix: bytes, digits: bytes, after: bytes)

  function Written(l: Line): bytes
  {
    l.spaces + (l.sign + (l.prefix + (l.digits + l.after)))
  }

  /** "0x" is a prefix only in front of a digit: without prefix, the digits are not a single zero that "x" and
      another digit follow. */
  ghost predicate NoPrefix(digits: bytes, after: bytes)
  {
    digits == [48] && |after| >= 2 && (after[0] == 120 || after[0] == 88) ==> !IsDigit(after[1])
  }

  ghost predicate Numeric(l: Line, digits: seq<nat>)
  {
    && (forall i :: 0 <= i < |l.spaces| ==> Space(l.spaces[i]))
    && (l.sign == [] || l.sign == [43] || l.sign == [45])
    && (l.prefix == [48, 120] || l.prefix == [48, 88] || (l.prefix == [] && NoPrefix(l.digits, l.after)))
    && l.digits != [] && Spells(l.digits, digits) && NoDigitFirst(l.after)
  }

  /** The number: too large ones are ULONG_MAX, and a minus sign negates modulo 2^64. */
  function Converted(value: nat, minus: bool): nat
  {
    if value >= 0x1_0000_0000_0000_0000 then 0xFFFF_FFFF_FFFF_FFFF
    else if minus then (0x1_0000_0000_0000_0000 - value) % 0x1_0000_0000_0000_0000
    else value
  }

  lemma {:induction false} SpacesSkipped(spaces: bytes, rest: bytes)
    requires (forall i :: 0 <= i < |spaces| ==> Space(spaces[i])) && rest != [] && !Space(rest[0])
    ensures SkipSpaces(spaces + rest) == rest
    decreases |spaces|
  {
    if spaces == [] {
      assert spaces + rest == rest;
    } else {
      assert (spaces + rest)[1..] == spaces[1..] + rest;
      SpacesSkipped(spaces[1..], rest);
    }
  }

  /** Behind the spaces: an optional sign. */
  function Signed(s: bytes): bytes
  {
    if s != [] && (s[0] == 45 || s[0] == 43) then s[1..] else s
  }

  function Unprefixed(t: bytes): bytes
  {
    if |t| > 2 && t[0] == 48 && (t[1] == 120 || t[1] == 88) && HexValue(t[2]).Some? then t[2..] else t
  }

  lemma StrtoulParts(line: bytes, s: bytes, d: bytes, v: nat)
    requires s == SkipSpaces(line) && d == Unprefixed(Signed(s)) && d != [] && HexValue(d[0]).Some?
    requires v == DigitsFrom(d, 0)
    ensures Strtoul(line) == Some(Converted(v, s != [] && s[0] == 45))
  {
  }

  lemma PrefixFound(l: Line, digits: seq<nat>)
    requires Numeric(l, digits)
    ensures Unprefixed(l.prefix + (l.digits + l.after)) == l.digits + l.after
    ensures HexValue((l.digits + l.after)[0]).Some?
  {
    var d := l.digits + l.after;
    var t := l.prefix + d;
    DigitExactly(d[0], digits[0]);
    if l.prefix == [] {
      assert t == d;
      PrefixMissed(l, digits);
    } else {
      assert t[2..] == d && t[2] == d[0];
    }
  }

  lemma PrefixMissed(l: Line, digits: seq<nat>)
    requires Numeric(l, digits) && l.prefix == []
    ensures Unprefixed(l.digits + l.after) == l.digits + l.after
  {
    var d := l.digits + l.after;
    if |d| > 2 && d[0] == 48 && (d[1] == 120 || d[1] == 88) {
      if |l.digits| > 1 {
        DigitExactly(d[1], digits[1]);
      } else {
        assert l.digits == [48] && d[1] == l.after[0] && d[2] == l.after[1];
        IsDigitExactly(l.after[1]);
      }
    }
  }

  /** strtoul with base 16 on a line that starts with a number, whatever comes behind its digits. */
  lemma NumberConverted(l: Line, digits: seq<nat>)
    requires Numeric(l, digits)
    ensures Strtoul(Written(l)) == Some(Converted(Positional(digits), l.sign == [45]))
  {
    var d := l.digits + l.after;
    var t := l.prefix + d;
    var s := l.sign + t;
    PrefixFound(l, digits);
    DigitsValue(l.digits, digits, l.after, 0);
    FirstIsNoSign(l, digits, t);
    assert Signed(s) == t && s[0] == (if l.sign == [] then t else l.sign)[0];
    SpacesSkipped(l.spaces, s);
    StrtoulParts(Written(l), s, d, Positional(digits));
  }

  lemma FirstIsNoSign(l: Line, digits: seq<nat>, t: bytes)
    requires Numeric(l, digits) && t == l.prefix + (l.digits + l.after)
    ensures t != [] && t[0] != 43 && t[0] != 45 && !Space(t[0])
  {
    DigitExactly(l.digits[0], digits[0]);
    assert t[0] == (if l.prefix == [] then l.digits else l.prefix)[0];
  }

  lemma {:induction false} SpacesFound(line: bytes) returns (spaces: bytes)
    ensures line == spaces + SkipSpaces(line) && forall i :: 0 <= i < |spaces| ==> Space(spaces[i])
    decreases |line|
  {
    if line != [] && Space(line[0]) {
      spaces := SpacesFound(line[1..]);
      spaces := [line[0]] + spaces;
    } else {
      spaces := [];
    }
  }

  lemma {:induction false} DigitsFound(d: bytes) returns (s: bytes, digits: seq<nat>, after: bytes)
    ensures d == s + after && Spells(s, digits) && NoDigitFirst(after)
    ensures d != [] && HexValue(d[0]).Some? ==> s != []
    decreases |d|
  {
    if d == [] || HexValue(d[0]).None? {
      s, digits, after := [], [], d;
      if d != [] {
        IsDigitExactly(d[0]);
      }
    } else {
      DigitExactly(d[0], HexValue(d[0]).value);
      s, digits, after := DigitsFound(d[1..]);
      s, digits := [d[0]] + s, [HexValue(d[0]).value] + digits;
    }
  }

  lemma SignFound(s: bytes) returns (sign: bytes)
    ensures s == sign + Signed(s) && (sign == [] || sign == [43] || sign == [45])
  {
    sign := s[..|s| - |Signed(s)|];
  }

  lemma PrefixTaken(t: bytes) returns (prefix: bytes)
    ensures t == prefix + Unprefixed(t)
  {
    prefix := t[..|t| - |Unprefixed(t)|];
  }

  lemma SomeDigit(line: bytes)
    requires Strtoul(line).Some?
    ensures var d := Unprefixed(Signed(SkipSpaces(line)));
            d != [] && HexValue(d[0]).Some?
  {
  }

  /** Whatever is converted starts with a number. */
  lemma NumberFound(line: bytes) returns (l: Line, digits: seq<nat>)
    requires Strtoul(line).Some?
    ensures line == Written(l) && Numeric(l, digits)
  {
    SomeDigit(line);
    var spaces := SpacesFound(line);
    var s := SkipSpaces(line);
    var sign := SignFound(s);
    var prefix := PrefixTaken(Signed(s));
    var d := Unprefixed(Signed(s));
    var number, ds, after := DigitsFound(d);
    l, digits := Line(spaces, sign, prefix, number, after), ds;
    NoPrefixLeft(l, d, Signed(s));
  }

  lemma NoPrefixLeft(l: Line, d: bytes, t: bytes)
    requires d == Unprefixed(t) && t == l.prefix + d && d == l.digits + l.after
    ensures l.prefix == [48, 120] || l.prefix == [48, 88] || (l.prefix == [] && NoPrefix(l.digits, l.after))
  {
    if d == t {
      assert l.prefix == [];
      if l.digits == [48] && |l.after| >= 2 {
        assert t[0] == 48 && t[1] == l.after[0] && t[2] == l.after[1];
        IsDigitExactly(l.after[1]);
      }
    } else {
      assert l.prefix == [t[0], t[1]];
    }
  }

  /** Nothing is converted exactly when no number comes first. */
  lemma NothingConverted(line: bytes)
    ensures Strtoul(line).None? <==> !exists l, digits :: line == Written(l) && Numeric(l, digits)
  {
    if Strtoul(line).Some? {
      var l, digits := NumberFound(line);
    }
    forall l, digits | line == Written(l) && Numeric(l, digits)
      ensures Strtoul(line).Some?
    {
      NumberConverted(l, digits);
    }
  }

  // ---------- numbers written ----------

  lemma {:induction false} PositionalSnoc(digits: seq<nat>, d: nat)
    ensures Positional(digits + [d]) == Positional(digits) * 16 + d
    decreases |digits|
  {
    if digits == [] {
      assert [] + [d] == [d] && [d][1..] == [];
      assert Power(0) == 1;
    } else {
      assert (digits + [d])[1..] == digits[1..] + [d];
      PositionalSnoc(digits[1..], d);
      assert digits[0] * Power(|digits|) == digits[0] * Power(|digits| - 1) * 16;
    }
  }

  /** from_i_to_hex writes the digits in small letters, the highest first and not zero. */
  lemma {:induction false} HexExactly(n: nat) returns (digits: seq<nat>)
    ensures |Hex(n)| == |digits| > 0 && Positional(digits) == n
    ensures forall i :: 0 <= i < |digits| ==> digits[i] < 16 && Hex(n)[i] == LOWER[digits[i]] as int
    ensures n > 0 ==> digits[0] > 0
    decreases n
  {
    if n < 16 {
      digits := [n];
      assert [n][1..] == [] && Power(0) == 1;
    } else {
      var high := HexExactly(n / 16);
      digits := high + [n % 16];
      PositionalSnoc(high, n % 16);
    }
  }

  // ---------- size lines ----------

  /** A line of digits in either case announces their value, with the end of the line or an extension
      behind them. */
  lemma DigitsAnnounce(s: bytes, digits: seq<nat>, after: bytes)
    requires s != [] && Spells(s, digits) && NoDigitFirst(after) && NoPrefix(s, after + [LF]) && LF !in after
    requires Positional(digits) < 0x1_0000_0000_0000_0000
    ensures Announces(s + after + [LF], Positional(digits))
  {
    var l := Line([], [], [], s, after + [LF]);
    assert Written(l) == s + after + [LF];
    NoNewLine(s, digits);
    assert after == [] ==> !IsDigit(LF) by { IsDigitExactly(LF); }
    assert after != [] ==> (after + [LF])[0] == after[0];
    NumberConverted(l, digits);
  }

  lemma NoNewLine(s: bytes, digits: seq<nat>)
    requires Spells(s, digits)
    ensures LF !in s
  {
    if LF in s {
      var i :| 0 <= i < |s| && s[i] == LF;
      DigitExactly(s[i], digits[i]);
    }
  }

  /** "A" announces ten octets. */
  lemma CapitalSize(payload: bytes, more: bytes, closes: bool)
    requires |payload| == 10
    ensures ReadChunks([65, 13, 10] + (payload + (CRLF + more)), closes) == Prefixed(payload, ReadChunks(more, closes))
  {
    assert UPPER[10] == 'A';
    assert [65] + [13] + [LF] == [65, 13, 10];
    IsDigitExactly(13);
    DigitsAnnounce([65], [10], [13]);
    assert Positional([10]) == 10 by {
      assert [10][1..] == [] && Power(0) == 1;
    }
    CodedRead(Coded([65, 13, 10], payload), more, closes);
  }

  /** When the line behind a chunk does not come, the chunk is delivered, and nothing is left to be read. */
  lemma LineMissing(size: nat, t: bytes, closes: bool)
    requires 0 < size <= |t| && !GotLine(t[size..], closes)
    ensures Sized(size, t, closes) == Outcome(false, t[..size], [])
  {
    if t[size..] != [] {
      NoLineFeed(t[size..]);
    }
  }

  lemma {:induction false} NoLineFeed(s: bytes)
    requires s != [] && LineOf(s)[|LineOf(s)| - 1] != LF
    ensures LineOf(s) == s
    decreases |s|
  {
    if |s| > 1 {
      NoLineFeed(s[1..]);
      assert [s[0]] + s[1..] == s;
    } else {
      assert s[1..] == [];
    }
  }
}
