/** Which bytes the ClientHello walker depends on (utils.cpp). */
module TlsSniReads {
  import opened Wrappers
  import opened TlsSni

  /** What is found depends on the bytes up to position `lastChar` alone: as long as that is no more than the
      length of the buffer, on nothing behind its terminating zero. */
  lemma OnlyWhatIsThere(b: bytes, c: bytes, lastChar: nat)
    requires forall i: nat | i <= lastChar :: At(b, i) == At(c, i)
    ensures Sni(b, lastChar) == Sni(c, lastChar)
  {
    if lastChar > 43 {
      var suites := 44 + Widened(At(b, 43));
      var compression := suites + 2 + Word(b, suites);
      if lastChar > suites && lastChar > compression {
        assert Word(b, suites) == Word(c, suites);
        var extensions := compression + 1 + Widened(At(b, compression));
        if lastChar > extensions {
          assert Word(b, extensions) == Word(c, extensions);
          SameExtensions(b, c, lastChar, extensions + 2, (extensions + 2 + Word(b, extensions)) % 0x1_0000);
        }
      }
    }
  }

  lemma {:induction false} SameExtensions(b: bytes, c: bytes, lastChar: nat, it: nat, stop: nat)
    requires forall i: nat | i <= lastChar :: At(b, i) == At(c, i)
    ensures WalkExtensions(b, lastChar, it, stop) == WalkExtensions(c, lastChar, it, stop)
    decreases if it < stop then stop - it else 0
  {
    if it < stop && it + 9 < lastChar {
      assert Word(b, it) == Word(c, it) && Word(b, it + 2) == Word(c, it + 2) && Word(b, it + 7) == Word(c, it + 7);
      if Word(b, it) != 0 {
        SameExtensions(b, c, lastChar, it + 4 + Word(b, it + 2), stop);
      }
    }
  }

  /** A byte read as a signed char and stored in sixteen bits: from 128 on, it counts as 256 less. */
  lemma WidenedExactly(c: nat)
    requires c < 256
    ensures Widened(c) == if c <= 127 then c else 65536 - (256 - c)
  {
  }

  /** A name that is found begins before `lastChar`. */
  lemma FoundInside(b: bytes, lastChar: nat)
    ensures Sni(b, lastChar) == (0, 0) || 53 <= Sni(b, lastChar).0 < lastChar
  {
    var suites := 44 + Widened(At(b, 43));
    var compression := suites + 2 + Word(b, suites);
    var extensions := compression + 1 + Widened(At(b, compression));
    WalkInside(b, lastChar, extensions + 2, (extensions + 2 + Word(b, extensions)) % 0x1_0000);
  }

  lemma {:induction false} WalkInside(b: bytes, lastChar: nat, it: nat, stop: nat)
    ensures WalkExtensions(b, lastChar, it, stop) == (0, 0) || it + 9 <= WalkExtensions(b, lastChar, it, stop).0 < lastChar
    decreases if it < stop then stop - it else 0
  {
    if it < stop && it + 9 < lastChar && Word(b, it) != 0 {
      WalkInside(b, lastChar, it + 4 + Word(b, it + 2), stop);
    }
  }
}
