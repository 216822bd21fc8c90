// The symbol-table hash of usr/lisp/scope.c.
module Hash {
  import opened Words

  const SCOPE_TABLES := 512

  // The characters of a C string as unsigned bytes.
  function Bytes(s: string): seq<u8> {
    seq(|s|, i requires 0 <= i < |s| => s[i] as int % 256)
  }

  // The number whose base-256 digits are the bytes, most significant first.
  function BigEndian(data: seq<u8>): nat {
    if data == [] then 0 else BigEndian(data[..|data| - 1]) * 256 + data[|data| - 1]
  }

  function Bucket(name: string): (b: nat)
    ensures b < SCOPE_TABLES
  {
    BigEndian(Bytes(name)) % TWO32 % SCOPE_TABLES
  }

  lemma LowBitsOfShift(w: u32)
    ensures w * 0x1000_0000 % TWO32 % 16 == 0
  {
    var r := w % 16;
    SameRemainder(w * 0x1000_0000, r * 0x1000_0000, w / 16);
    NoLowBits(r * 0x100_0000);
  }

  lemma NoLowBits(x: nat)
    ensures 16 * x % 16 == 0
  {
  }

  // The mixing branch of the loop is dead: the low four bits of a word shifted
  // left by 28 are zero, so the hash is the big-endian value, truncated.
  method PjwHash(data: seq<u8>) returns (ret: u32)
    ensures ret == BigEndian(data) % TWO32
  {
    ret := 0;
    for i := 0 to |data|
      invariant ret == BigEndian(data[..i]) % TWO32
    {
      assert data[..i + 1][..i] == data[..i];
      PushDigit(BigEndian(data[..i]), 256, data[i]);
      ret := (ret * 256 % TWO32 + data[i]) % TWO32;
      LowBitsOfShift(ret);
      var high := ret * 0x1000_0000 % TWO32 % 16;
      if high != 0 {
        assert false;
      }
    }
    assert data[..|data|] == data;
  }

  // Which of the 512 buckets a byte string lands in: only its last byte and the
  // parity of the byte before it matter.
  lemma {:induction false} BucketOfBytes(data: seq<u8>)
    ensures BigEndian(data) % TWO32 % SCOPE_TABLES ==
            if |data| == 0 then 0
            else if |data| == 1 then data[0] as int
            else data[|data| - 1] as int + 256 * (data[|data| - 2] as int % 2)
  {
    if |data| == 1 {
      assert BigEndian(data[..0]) == 0;
    } else if |data| >= 2 {
      LastBytes(BigEndian(data[..|data| - 2]), data[|data| - 2], data[|data| - 1]);
      assert data[..|data| - 1][..|data| - 2] == data[..|data| - 2];
    }
  }

  lemma LastBytes(v: nat, previous: u8, last: u8)
    ensures ((v * 256 + previous) * 256 + last) % TWO32 % 512 == last + 256 * (previous as int % 2)
  {
    var n := (v * 256 + previous) * 256 + last;
    var q, r := n / TWO32, n % TWO32;
    LowNine(n, 0x80_0000 * q + r / 512, r % 512);
    LowNine(n, v * 128 + previous / 2, last + 256 * (previous as int % 2));
  }
}
