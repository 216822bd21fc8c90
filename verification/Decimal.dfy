// Decimal text: int->string of usr/lisp/methods.c and str_to_uint of usr/lib/string.c.
module Decimal {
  import opened Words

  const NOT_A_NUMBER: u32 := 0x01234567
  const MAX_PRINTABLE := 1_000_000_000

  function Pow10(k: nat): (p: nat)
    ensures p >= 1
  {
    if k == 0 then 1 else 10 * Pow10(k - 1)
  }

  function Digit(d: nat): char
    requires d < 10
  {
    '0' + d as char
  }

  predicate IsDigit(c: char) {
    '0' <= c <= '9'
  }

  predicate AllDigits(s: string) {
    forall i :: 0 <= i < |s| ==> IsDigit(s[i])
  }

  // The number a digit string denotes.
  function Value(s: string): nat
    requires AllDigits(s)
  {
    if s == "" then 0 else Value(s[..|s| - 1]) * 10 + (s[|s| - 1] as int - '0' as int)
  }

  // The last k decimal digits of n, with leading zeros.
  function Digits(n: nat, k: nat): (s: string)
    ensures |s| == k && AllDigits(s)
  {
    if k == 0 then "" else Digits(n / 10, k - 1) + [Digit(n % 10)]
  }

  // How many digits int->string emits: the least k >= 1 with n <= 10^k.
  function Width(n: nat): (k: nat)
    ensures k >= 1 && n <= Pow10(k)
    ensures k > 1 ==> n > Pow10(k - 1)
  {
    if n <= 10 then 1 else
      var k := Width((n + 9) / 10);
      k + 1
  }

  // What int->string prints.
  function Render(n: nat): string {
    Digits(n, Width(n))
  }

  lemma {:induction false} Pow10Monotone(i: nat, j: nat)
    requires i < j
    ensures Pow10(i) < Pow10(j)
    decreases j - i
  {
    if i + 1 < j {
      Pow10Monotone(i + 1, j);
    }
  }

  lemma DivMod10(n: nat, p: nat)
    requires p >= 1
    ensures n % (10 * p) == n / 10 % p * 10 + n % 10
    ensures n / 10 / p == n / (10 * p)
  {
    var q := n / 10;
    var t := q / p;
    var u := q % p;
    assert q == t * p + u;
    assert n == (10 * p) * t + (u * 10 + n % 10);
    Uniquely(n, 10 * p, t, u * 10 + n % 10);
  }

  lemma {:induction false} Divides(n: nat, a: nat, b: nat)
    requires a > 0 && b > 0
    ensures a * b > 0 && n / a / b == n / (a * b)
  {
    var q, r := n / a, n % a;
    var t, u := q / b, q % b;
    Assembled(n, q, a, b, t, u, r);
    DividesBy(n, a * b, t, a * u + r);
  }

  lemma {:induction false} DividesBy(n: nat, d: nat, t: nat, r: nat)
    requires n == d * t + r && r < d
    ensures n / d == t
  {
    Uniquely(n, d, t, r);
  }

  lemma {:induction false} Assembled(n: nat, q: nat, a: nat, b: nat, t: nat, u: nat, r: nat)
    requires r < a && u < b && n == a * q + r && q == b * t + u
    ensures a * b > 0 && n == a * b * t + (a * u + r) && a * u + r < a * b
  {
    Regroup(a, b, t);
    Spread(a, b * t, u);
    Spread(a, u, b - u);
    Grows(a, b);
    Grows(a, b - u);
  }

  lemma {:induction false} Spread(a: int, b: int, c: int)
    ensures a * (b + c) == a * b + a * c
  {
  }

  lemma {:induction false} Regroup(a: int, b: int, c: int)
    ensures a * b * c == a * (b * c)
  {
  }

  lemma {:induction false} Uniquely(n: int, d: int, q: int, r: int)
    requires d > 0 && n == d * q + r && 0 <= r < d
    ensures n / d == q && n % d == r
  {
    var e := q - n / d;
    assert n == d * (n / d) + n % d;
    assert d * e == n % d - r by {
      assert d * (q - n / d) == d * q - d * (n / d);
    }
    if e >= 1 {
      Grows(d, e);
    } else if e <= -1 {
      Grows(d, -e);
    }
  }

  lemma {:induction false} Grows(d: int, e: int)
    requires d > 0 && e >= 1
    ensures d * e >= d
  {
    if e > 1 {
      Grows(d, e - 1);
      assert d * e == d * (e - 1) + d;
    }
  }

  lemma {:induction false} DigitsValue(n: nat, k: nat)
    ensures Value(Digits(n, k)) == n % Pow10(k)
  {
    if k > 0 {
      DigitsValue(n / 10, k - 1);
      DivMod10(n, Pow10(k - 1));
      assert Digits(n, k)[..k - 1] == Digits(n / 10, k - 1);
    }
  }

  // Every digit string is that of its value.
  lemma {:induction false} ValueDigits(s: string)
    requires AllDigits(s)
    ensures Value(s) < Pow10(|s|) && Digits(Value(s), |s|) == s
  {
    if s != "" {
      var front := s[..|s| - 1];
      ValueDigits(front);
      assert s == front + [s[|s| - 1]];
    }
  }

  lemma {:induction false} DigitAt(n: nat, k: nat, i: nat)
    requires i < k
    ensures Digits(n, k)[i] == Digit(n / Pow10(k - 1 - i) % 10) == "0123456789"[n / Pow10(k - 1 - i) % 10]
  {
    if i < k - 1 {
      DigitAt(n / 10, k - 1, i);
      DivMod10(n, Pow10(k - 2 - i));
    }
  }

  lemma {:induction false} WidthIsLeast(n: nat, k: nat)
    requires k >= 1 && n <= Pow10(k) && (k > 1 ==> n > Pow10(k - 1))
    ensures k == Width(n)
  {
    if k < Width(n) && k < Width(n) - 1 {
      Pow10Monotone(k, Width(n) - 1);
    } else if Width(n) < k - 1 {
      Pow10Monotone(Width(n), k - 1);
    }
  }

  // None stands for the signed overflow of `power`, which the loop runs into
  // exactly above 10^9.
  method IntToString(n: u32) returns (text: Option<string>)
    ensures text == if n <= MAX_PRINTABLE then Some(Render(n)) else None
  {
    var power := 10;
    var count := 1;
    assert Pow10(1) == 10 && Pow10(9) == MAX_PRINTABLE;
    while power < n
      invariant 1 <= count <= 9 && power == Pow10(count)
      invariant count > 1 ==> n > Pow10(count - 1)
      decreases 9 - count
    {
      assert Pow10(count + 1) == 10 * power;
      if count < 8 {
        Pow10Monotone(count + 1, 9);
      }
      if power * 10 > 0x7FFF_FFFF {
        return None;
      }
      power := power * 10;
      count := count + 1;
    }
    if count < 9 {
      Pow10Monotone(count, 9);
    }
    WidthIsLeast(n, count);
    TenthOfPower(count);
    var buf := Emit(n, count, power / 10);
    text := Some(buf);
  }

  lemma TenthOfPower(k: nat)
    requires k >= 1
    ensures Pow10(k) / 10 == Pow10(k - 1)
  {
  }

  // The loop that fills the buffer, from the most significant digit on.
  method Emit(n: u32, count: nat, top: nat) returns (buf: string)
    requires count >= 1 && top == Pow10(count - 1)
    ensures buf == Digits(n, count)
  {
    hide Pow10, Digits, Digit;
    var power := top;
    buf := "";
    for i := 0 to count
      invariant i < count ==> power == Pow10(count - 1 - i)
      invariant buf == Digits(n, count)[..i]
    {
      DigitAt(n, count, i);
      if i + 1 < count {
        TenthOfPower(count - 1 - i);
      }
      buf := buf + [Digit(n / power % 10)];
      power := power / 10;
    }
    assert Digits(n, count)[..count] == Digits(n, count);
  }

  // The number a string stands for, truncated to 32 bits.
  function ToUint(s: string): u32 {
    if AllDigits(s) then Wrap(Value(s)) else NOT_A_NUMBER
  }

  method StrToUint(s: string) returns (ret: u32)
    ensures ret == ToUint(s)
    ensures (exists i :: 0 <= i < |s| && !('0' <= s[i] <= '9')) ==> ret == 0x0123_4567
  {
    ret := 0;
    for i := 0 to |s|
      invariant AllDigits(s[..i]) && ret == Value(s[..i]) % TWO32
    {
      if !IsDigit(s[i]) {
        return NOT_A_NUMBER;
      }
      assert s[..i + 1][..i] == s[..i];
      PushDigit(Value(s[..i]), 10, s[i] as int - '0' as int);
      ret := (ret * 10 % TWO32 + (s[i] as int - '0' as int)) % TWO32;
    }
    assert s[..|s|] == s;
  }

  // Reading back what was printed gives the number again, unless it is a power
  // of ten from 10 on: those print as zeros only.
  lemma ReadBack(n: nat)
    requires n <= MAX_PRINTABLE
    ensures ToUint(Render(n)) == if exists j :: 1 <= j && n == Pow10(j) then 0 else n
  {
    var k := Width(n);
    DigitsValue(n, k);
    if n == Pow10(k) {
      Uniquely(n, Pow10(k), 1, 0);
    } else {
      Uniquely(n, Pow10(k), 0, n);
      if j :| 1 <= j && n == Pow10(j) {
        if j > 1 {
          Pow10Monotone(j - 1, j);
        }
        WidthIsLeast(n, j);
      }
    }
  }
}
