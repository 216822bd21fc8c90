// Bytes and little-endian words, as the kernel's casts see them.
module RawMemory {
  import opened Words

  type Memory = seq<u8>

  function GetWord(m: Memory, a: nat): (w: u32)
    requires a + 4 <= |m|
  {
    m[a] as int + 0x100 * m[a + 1] as int + 0x1_0000 * m[a + 2] as int + 0x100_0000 * m[a + 3] as int
  }

  // The least significant byte comes first.
  lemma {:induction false} LittleEndian()
    ensures GetWord([0x78, 0x56, 0x34, 0x12], 0) == 0x1234_5678
  {
  }

  // Two memories agree outside [lo, hi).
  ghost predicate SameOutside(m: Memory, m': Memory, lo: int, hi: int) {
    |m'| == |m| && forall x :: 0 <= x < |m| && !(lo <= x < hi) ==> m'[x] == m[x]
  }

  function PutByte(m: Memory, a: nat, b: u8): (m': Memory)
    requires a < |m|
    ensures |m'| == |m| && SameOutside(m, m', a, a + 1) && m'[a] == b
  {
    m[a := b]
  }

  function PutWord(m: Memory, a: nat, w: u32): (m': Memory)
    requires a + 4 <= |m|
    ensures |m'| == |m| && SameOutside(m, m', a, a + 4) && GetWord(m', a) == w
  {
    WordBytes(w);
    m[a := w % 0x100][a + 1 := w / 0x100 % 0x100][a + 2 := w / 0x1_0000 % 0x100][a + 3 := w / 0x100_0000]
  }

  lemma WordBytes(w: u32)
    ensures w == w % 0x100 + 0x100 * (w / 0x100 % 0x100) + 0x1_0000 * (w / 0x1_0000 % 0x100)
                 + 0x100_0000 * (w / 0x100_0000)
    ensures 0 <= w / 0x100_0000 < 0x100
  {
    Quotients(w);
  }

  lemma Quotients(w: nat)
    ensures w / 0x1_0000 == w / 0x100 / 0x100 && w / 0x100_0000 == w / 0x100 / 0x100 / 0x100
  {
  }

  lemma WordUnchanged(m: Memory, m': Memory, lo: int, hi: int, a: nat)
    requires SameOutside(m, m', lo, hi)
    requires a + 4 <= |m| && (a + 4 <= lo || hi <= a)
    ensures GetWord(m', a) == GetWord(m, a)
  {
  }

  lemma SameLength(m: Memory, m': Memory, lo: int, hi: int)
    requires SameOutside(m, m', lo, hi)
    ensures |m'| == |m|
  {
  }

  lemma Widen(m: Memory, m': Memory, a: int, b: int, lo: int, hi: int)
    requires SameOutside(m, m', a, b) && lo <= a && b <= hi
    ensures SameOutside(m, m', lo, hi)
  {
  }

  // A write inside [lo, hi) after others inside [lo, hi).
  lemma Compose(m: Memory, m1: Memory, m2: Memory, lo: int, hi: int, a: int, b: int)
    requires SameOutside(m, m1, lo, hi) && SameOutside(m1, m2, a, b) && lo <= a && b <= hi
    ensures SameOutside(m, m2, lo, hi)
  {
  }
}
