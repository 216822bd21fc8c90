// Machine words and the optional values shared by all modules.
module Words {
  const TWO32 := 0x1_0000_0000
  const PAGE := 4096                      // bytes in a page of memory

  type u8 = x: int | 0 <= x < 0x100
  type u32 = x: int | 0 <= x < 0x1_0000_0000

  datatype Option<+T> = None | Some(value: T)

  // Truncation to an unsigned 32-bit word.
  function Wrap(x: int): (w: u32)
    ensures 0 <= x < TWO32 ==> w == x
  {
    x % TWO32
  }

  // A digit pushed into a truncated number gives the longer number, truncated.
  lemma PushDigit(v: int, base: nat, digit: int)
    ensures (v % TWO32 * base % TWO32 + digit) % TWO32 == (v * base + digit) % TWO32
  {
    var q, w := v / TWO32, v % TWO32;
    var q1, w1 := w * base / TWO32, w * base % TWO32;
    Distribute(v, q, w, base);
    SameRemainder(v * base + digit, w1 + digit, q * base + q1);
  }

  lemma Distribute(v: int, q: int, w: nat, base: nat)
    requires v == TWO32 * q + w
    ensures v * base == TWO32 * (q * base) + w * base
  {
  }

  lemma SameRemainder(x: int, y: int, k: int)
    requires x == TWO32 * k + y
    ensures x % TWO32 == y % TWO32
  {
  }

  lemma LowNine(n: nat, k: nat, low: nat)
    requires n == 512 * k + low && low < 512
    ensures n / 512 == k && n % 512 == low
  {
  }
}
