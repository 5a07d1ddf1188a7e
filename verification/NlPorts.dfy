/** Local port allocation: a map of 1024 slots and a pseudo-random search through it
    (libnl/lib/socket.c). */
module NlPorts {
  import opened Wrappers

  const BLOCKS := 32
  const SLOTS := 1024
  const PID_LIMIT := 0x40_0000
  const U32_MAX := 0xFFFF_FFFF

  /** used_ports_map, bit by bit: slot 32 * i + n is bit n of word i. */
  type Slots = s: seq<bool> | |s| == 1024 witness seq(1024, _ => false)

  /** The slot a port number carries in its upper ten bits. */
  function SlotOf(port: nat): nat
  {
    port / PID_LIMIT
  }

  /** The process number in the lower bits; zero is avoided. */
  function PortOf(pid: nat, slot: nat): nat
  {
    var port := pid % PID_LIMIT + slot * PID_LIMIT;
    if port == 0 then 1024 else port
  }

  /** A generated port is a 32-bit number other than zero, and its slot can be recovered. */
  lemma SlotRecovered(pid: nat, slot: nat)
    requires slot < SLOTS
    ensures 0 < PortOf(pid, slot) <= U32_MAX && SlotOf(PortOf(pid, slot)) == slot
  {
  }

  // ---------- the walk ----------

  function NextBlock(i: nat): nat
  {
    (i - 1 + 7) % 31 + 1
  }

  function NextBit(n: nat): nat
  {
    (n + 13) % 32
  }

  /** The block looked at in round `j`, starting from `i`. */
  function BlockAt(i: nat, j: nat): nat
  {
    if j == 31 then 0 else WalkBlocks(i, j)
  }

  function WalkBlocks(i: nat, j: nat): nat
  {
    NextBlock(if j == 0 then i else WalkBlocks(i, j - 1))
  }

  /** The bit looked at in round `m`, starting from `n`. */
  function BitAt(n: nat, m: nat): nat
  {
    NextBit(if m == 0 then n else BitAt(n, m - 1))
  }

  lemma {:induction false} WalkBlocksClosed(i: nat, j: nat)
    ensures WalkBlocks(i, j) == (i - 1 + 7 * (j + 1)) % 31 + 1
    decreases j
  {
    if j > 0 {
      WalkBlocksClosed(i, j - 1);
      var x := i - 1 + 7 * j;
      Mod31(x + 7, x / 31 + (x % 31 + 7) / 31, (x % 31 + 7) % 31);
    }
  }

  lemma {:induction false} BitAtClosed(n: nat, m: nat)
    ensures BitAt(n, m) == (n + 13 * (m + 1)) % 32
    decreases m
  {
    if m > 0 {
      BitAtClosed(n, m - 1);
      var x := n + 13 * m;
      Mod32(x + 13, x / 32 + (x % 32 + 13) / 32, (x % 32 + 13) % 32);
    }
  }

  /** The round in which a block comes up. */
  function RoundOfBlock(i: nat, b: nat): (j: nat)
    requires b < BLOCKS
    ensures j < BLOCKS
  {
    if b == 0 then 31 else (9 * (b - i) - 1) % 31
  }

  function RoundOfBit(n: nat, b: nat): (m: nat)
    requires b < 32
    ensures m < 32
  {
    (5 * (b - n) - 1) % 32
  }

  /** Every block comes up in exactly one of the 32 rounds, and block 0 in the last. */
  lemma EveryBlockOnce(i: nat, b: nat, j: nat)
    requires b < BLOCKS && j < BLOCKS
    ensures BlockAt(i, j) < BLOCKS
    ensures BlockAt(i, j) == b <==> j == RoundOfBlock(i, b)
  {
    if j < 31 {
      WalkBlocksClosed(i, j);
      if b > 0 {
        BlockRound(i, b, j);
      }
    }
  }

  lemma Mod31(x: int, q: int, r: int)
    requires x == 31 * q + r && 0 <= r < 31
    ensures x % 31 == r
  {
  }

  lemma Mod32(x: int, q: int, r: int)
    requires x == 32 * q + r && 0 <= r < 32
    ensures x % 32 == r
  {
  }

  lemma BlockForward(i: int, b: int, j: int, q: int)
    requires i - 1 + 7 * (j + 1) == 31 * q + (b - 1) && 0 <= j < 31
    ensures (9 * (b - i) - 1) % 31 == j
  {
    Mod31(9 * (b - i) - 1, 2 * (j + 1) - 9 * q, j);
  }

  lemma BlockBackward(i: int, b: int, j: int, r: int)
    requires 9 * (b - i) - 1 == 31 * r + j && 0 < b < 32
    ensures (i - 1 + 7 * (j + 1)) % 31 == b - 1
  {
    Mod31(i - 1 + 7 * (j + 1), 2 * (b - i) - 7 * r, b - 1);
  }

  lemma BlockRound(i: nat, b: nat, j: nat)
    requires 0 < b < BLOCKS && j < 31
    ensures (i - 1 + 7 * (j + 1)) % 31 + 1 == b <==> j == (9 * (b - i) - 1) % 31
  {
    var x, y := i - 1 + 7 * (j + 1), 9 * (b - i) - 1;
    if x % 31 + 1 == b {
      BlockForward(i, b, j, x / 31);
    }
    if j == y % 31 {
      BlockBackward(i, b, j, y / 31);
    }
  }

  lemma BitForward(n: int, b: int, m: int, q: int)
    requires n + 13 * (m + 1) == 32 * q + b && 0 <= m < 32
    ensures (5 * (b - n) - 1) % 32 == m
  {
    Mod32(5 * (b - n) - 1, 2 * (m + 1) - 5 * q, m);
  }

  lemma BitBackward(n: int, b: int, m: int, r: int)
    requires 5 * (b - n) - 1 == 32 * r + m && 0 <= b < 32
    ensures (n + 13 * (m + 1)) % 32 == b
  {
    Mod32(n + 13 * (m + 1), 2 * (b - n) - 13 * r, b);
  }

  lemma BitRound(n: nat, b: nat, m: nat)
    requires b < 32 && m < 32
    ensures (n + 13 * (m + 1)) % 32 == b <==> m == (5 * (b - n) - 1) % 32
  {
    var x, y := n + 13 * (m + 1), 5 * (b - n) - 1;
    if x % 32 == b {
      BitForward(n, b, m, x / 32);
    }
    if m == y % 32 {
      BitBackward(n, b, m, y / 32);
    }
  }

  /** Within a block every bit comes up in exactly one of the 32 rounds. */
  lemma EveryBitOnce(n: nat, b: nat, m: nat)
    requires b < 32 && m < 32
    ensures BitAt(n, m) < 32
    ensures BitAt(n, m) == b <==> m == RoundOfBit(n, b)
  {
    BitAtClosed(n, m);
    BitRound(n, b, m);
  }

  // ---------- the search ----------

  predicate Taken(used: Slots, i: nat, n: nat)
  {
    32 * i + n < SLOTS && used[32 * i + n]
  }

  predicate Full(used: Slots, i: nat)
  {
    forall n :: 0 <= n < 32 ==> Taken(used, i, n)
  }

  lemma BlockFull(used: Slots, slot: nat)
    requires slot < SLOTS && Full(used, slot / 32)
    ensures used[slot]
  {
    assert Taken(used, slot / 32, slot % 32);
  }

  /** The first block in the walk that is not full. */
  function FindBlock(used: Slots, i: nat, j: nat): (r: Option<nat>)
    requires j < BLOCKS
    ensures r.Some? ==> r.value < BLOCKS && !Full(used, r.value)
    decreases BLOCKS - j
  {
    var b := if j == 31 then 0 else NextBlock(i);
    if !Full(used, b) then Some(b) else if j == 31 then None else FindBlock(used, b, j + 1)
  }

  /** The first clear bit of a block in the walk. */
  function FindBit(used: Slots, i: nat, n: nat, m: nat): (r: Option<nat>)
    requires i < BLOCKS
    ensures r.Some? ==> r.value < 32 && !Taken(used, i, r.value)
    decreases 32 - m
  {
    if m >= 32 then None
    else
      var b := NextBit(n);
      if !Taken(used, i, b) then Some(b) else FindBit(used, i, b, m + 1)
  }

  function FindSlot(used: Slots, idx: nat): (r: Option<nat>)
    ensures r.Some? ==> r.value < SLOTS && !used[r.value]
  {
    var i := FindBlock(used, idx / 32, 0);
    if i.None? then None
    else
      var n := FindBit(used, i.value, idx, 0);
      if n.None? then None else Some(32 * i.value + n.value)
  }

  /** What a search that starts in round `j` has seen when it fails, or ends in block 0. */
  lemma {:induction false} BlocksSeen(used: Slots, start: nat, i: nat, j: nat, k: nat)
    requires j <= k < 31 && i == (if j == 0 then start else WalkBlocks(start, j - 1))
    requires FindBlock(used, i, j).None? || FindBlock(used, i, j).value == 0
    ensures BlockAt(start, k) < BLOCKS && Full(used, BlockAt(start, k))
    decreases k - j
  {
    EveryBlockOnce(start, 0, k);
    EveryBlockOnce(start, 0, j);
    if j < k {
      BlocksSeen(used, start, NextBlock(i), j + 1, k);
    }
  }

  /** Block 0 is the last resort. */
  lemma LastResort(used: Slots, i: nat, b: nat)
    requires FindBlock(used, i, 0).None? || FindBlock(used, i, 0).value == 0
    requires 0 < b < BLOCKS
    ensures Full(used, b)
  {
    var j := RoundOfBlock(i, b);
    EveryBlockOnce(i, b, j);
    EveryBlockOnce(i, 0, j);
    BlocksSeen(used, i, i, 0, j);
  }

  lemma {:induction false} LastBlockFull(used: Slots, i: nat, j: nat)
    requires j < BLOCKS && FindBlock(used, i, j).None?
    ensures Full(used, 0)
    decreases BLOCKS - j
  {
    if j < 31 {
      LastBlockFull(used, NextBlock(i), j + 1);
    }
  }

  lemma {:induction false} BitsSeen(used: Slots, i: nat, start: nat, n: nat, m: nat, k: nat)
    requires i < BLOCKS && m <= k < 32 && n == (if m == 0 then start else BitAt(start, m - 1))
    requires FindBit(used, i, n, m).None?
    ensures BitAt(start, k) < 32 && Taken(used, i, BitAt(start, k))
    decreases k - m
  {
    if m < k {
      BitsSeen(used, i, start, NextBit(n), m + 1, k);
    }
  }

  /** A block with a clear bit yields one. */
  lemma BlockYields(used: Slots, i: nat, n: nat)
    requires i < BLOCKS && !Full(used, i)
    ensures FindBit(used, i, n, 0).Some?
  {
    if FindBit(used, i, n, 0).None? {
      forall b | 0 <= b < 32
        ensures Taken(used, i, b)
      {
        var k := RoundOfBit(n, b);
        EveryBitOnce(n, b, k);
        BitsSeen(used, i, n, n, 0, k);
      }
    }
  }

  lemma OthersTaken(used: Slots, i: nat, slot: nat)
    requires FindBlock(used, i, 0).None? || FindBlock(used, i, 0).value == 0
    requires 32 <= slot < SLOTS
    ensures used[slot]
  {
    LastResort(used, i, slot / 32);
    BlockFull(used, slot);
  }

  lemma AllTaken(used: Slots, i: nat, slot: nat)
    requires FindBlock(used, i, 0).None? && slot < SLOTS
    ensures used[slot]
  {
    if slot < 32 {
      LastBlockFull(used, i, 0);
      BlockFull(used, slot);
    } else {
      OthersTaken(used, i, slot);
    }
  }

  /** The search is complete: from any start it fails only when all slots are taken, and it takes
      one of the first 32 slots only when all others are taken. */
  lemma SearchComplete(used: Slots, idx: nat)
    ensures FindSlot(used, idx).None? <==> forall slot :: 0 <= slot < SLOTS ==> used[slot]
    ensures FindSlot(used, idx).Some? && FindSlot(used, idx).value < 32 ==>
              forall slot :: 32 <= slot < SLOTS ==> used[slot]
  {
    var i := FindBlock(used, idx / 32, 0);
    if i.Some? {
      BlockYields(used, i.value, idx);
      if i.value == 0 {
        forall slot | 32 <= slot < SLOTS
          ensures used[slot]
        {
          OthersTaken(used, idx / 32, slot);
        }
      }
    } else {
      forall slot | 0 <= slot < SLOTS
        ensures used[slot]
      {
        AllTaken(used, idx / 32, slot);
      }
    }
  }
}
