/** The letters of unpadded base64url, group by group (include/base64.h), sections 4, 5 and 10 of RFC 4648. */
module Base64UrlGroups {
  import opened Wrappers
  import opened Base64Url

  /** The alphabet of section 5 of RFC 4648: capitals, small letters, digits, minus and underscore. */
  function InAlphabet(v: nat): byte
    requires v < 64
  {
    if v <= 25 then 'A' as int + v
    else if v <= 51 then 'a' as int + (v - 26)
    else if v <= 61 then '0' as int + (v - 52)
    else if v == 62 then '-' as int
    else '_' as int
  }

  lemma FirstDigit(s: bytes, x: nat, r: nat)
    requires s != [] && x == s[0] / 4 && r == s[0] % 4
    ensures Digits(0, 0, s) == [x] + Digits(2, r, s[1..])
  {
  }

  lemma SecondDigit(r: nat, s: bytes, y: nat, q: nat)
    requires r < 4 && s != [] && y == r * 16 + s[0] / 16 && q == s[0] % 16
    ensures Digits(2, r, s) == [y] + Digits(4, q, s[1..])
  {
  }

  lemma LastDigits(q: nat, s: bytes, z: nat, w: nat)
    requires q < 16 && s != [] && z == q * 4 + s[0] / 64 && w == s[0] % 64
    ensures Digits(4, q, s) == [z, w] + Digits(0, 0, s[1..])
  {
  }

  lemma OneDigits(s: bytes, x: nat, y: nat)
    requires |s| == 1 && x == s[0] / 4 && y == s[0] % 4 * 16
    ensures Digits(0, 0, s) == [x, y]
  {
    FirstDigit(s, x, s[0] % 4);
    assert Digits(2, s[0] % 4, []) == [y];
  }

  lemma TwoDigits(s: bytes, x: nat, y: nat, z: nat)
    requires |s| == 2 && x == s[0] / 4 && y == s[0] % 4 * 16 + s[1] / 16 && z == s[1] % 16 * 4
    ensures Digits(0, 0, s) == [x, y, z]
  {
    var r, q := s[0] % 4, s[1] % 16;
    FirstDigit(s, x, r);
    SecondDigit(r, s[1..], y, q);
    assert Digits(4, q, []) == [z];
    assert [x] + ([y] + [z]) == [x, y, z];
  }

  lemma GroupDigits(s: bytes, x: nat, y: nat, z: nat, w: nat)
    requires |s| >= 3 && x == s[0] / 4 && y == s[0] % 4 * 16 + s[1] / 16
    requires z == s[1] % 16 * 4 + s[2] / 64 && w == s[2] % 64
    ensures Digits(0, 0, s) == [x, y, z, w] + Digits(0, 0, s[3..])
  {
    var r, q := s[0] % 4, s[1] % 16;
    var t, u, rest := s[1..], s[1..][1..], Digits(0, 0, s[3..]);
    assert u[1..] == s[3..] && t[0] == s[1] && u[0] == s[2];
    FirstDigit(s, x, r);
    SecondDigit(r, t, y, q);
    LastDigits(q, u, z, w);
    assert [x] + ([y] + ([z, w] + rest)) == [x, y, z, w] + rest;
  }

  /** Three octets are four letters of six bits each, the highest bits first; one or two octets at the end are
      two or three letters, filled up with zero bits. */
  lemma EncodedInGroups(s: bytes)
    ensures s == [] ==> Encode(s) == []
    ensures |s| == 1 ==> Encode(s) == [InAlphabet(s[0] / 4), InAlphabet(s[0] % 4 * 16)]
    ensures |s| == 2 ==> Encode(s) == [InAlphabet(s[0] / 4), InAlphabet(s[0] % 4 * 16 + s[1] / 16), InAlphabet(s[1] % 16 * 4)]
    ensures |s| >= 3 ==>
              Encode(s) == [InAlphabet(s[0] / 4), InAlphabet(s[0] % 4 * 16 + s[1] / 16),
                            InAlphabet(s[1] % 16 * 4 + s[2] / 64), InAlphabet(s[2] % 64)] + Encode(s[3..])
  {
    if |s| == 1 {
      OneDigits(s, s[0] / 4, s[0] % 4 * 16);
    } else if |s| == 2 {
      TwoDigits(s, s[0] / 4, s[0] % 4 * 16 + s[1] / 16, s[1] % 16 * 4);
    } else if |s| >= 3 {
      var x, y, z, w := s[0] / 4, s[0] % 4 * 16 + s[1] / 16, s[1] % 16 * 4 + s[2] / 64, s[2] % 64;
      GroupDigits(s, x, y, z, w);
      GroupLetters(x, y, z, w, Digits(0, 0, s[3..]));
    }
  }

  lemma GroupLetters(a: nat, b: nat, c: nat, d: nat, ds: seq<nat>)
    requires a < 64 && b < 64 && c < 64 && d < 64 && forall i :: 0 <= i < |ds| ==> ds[i] < 64
    ensures Letters([a, b, c, d] + ds) == [InAlphabet(a), InAlphabet(b), InAlphabet(c), InAlphabet(d)] + Letters(ds)
  {
  }

  /** Test vectors of section 10 of RFC 4648, and the two letters that are this alphabet's own. */
  lemma EncodedExamples()
    ensures Encode([102]) == [90, 103] && Encode([102, 111]) == [90, 109, 56]
    ensures Encode([251, 255]) == [45, 95, 56]
  {
    EncodedInGroups([102]);
    EncodedInGroups([102, 111]);
    EncodedInGroups([251, 255]);
  }
}
