/** Integer rendering as Go's `fmt` does it for `%d` and `%x` on unsigned
    values, and the integer-division facts the display code relies on. */
module Format {

  const Digits: string := "0123456789abcdef"

  /** 2^64, one more than the largest `uint64`. */
  const Uint64Limit: nat := 0x1_0000_0000_0000_0000

  /** The digit character for `d`: lower-case for the values 10 to 15, as `%x` prints them. */
  function Digit(d: nat): (c: char)
    requires d < 16
    ensures c in Digits
  {
    Digits[d]
  }

  /** The value of a digit character; defined on `Digits`, inverse of `Digit`. */
  function DigitValue(c: char): (d: nat)
    ensures d < 16
    ensures c in Digits ==> Digit(d) == c
  {
    if '0' <= c <= '9' then c as int - '0' as int
    else if 'a' <= c <= 'f' then c as int - 'a' as int + 10
    else 0
  }

  lemma DigitValueOfDigit(d: nat)
    requires d < 16
    ensures DigitValue(Digit(d)) == d
  {
  }

  /** `n` written in `base` with no leading zeros (`"0"` for zero). */
  function NatToText(n: nat, base: nat): (s: string)
    requires 2 <= base <= 16
    ensures |s| >= 1
    decreases n
  {
    if n < base then [Digit(n)]
    else
      DivSmaller(n, base);
      NatToText(n / base, base) + [Digit(n % base)]
  }

  /** The rendering uses only the first `base` digit characters and has no
      leading zero. */
  lemma {:induction false} NatToTextDigits(n: nat, base: nat)
    requires 2 <= base <= 16
    ensures var s := NatToText(n, base);
      && (forall i :: 0 <= i < |s| ==> s[i] in Digits[..base])
      && (|s| > 1 ==> s[0] != '0')
    decreases n
  {
    if n >= base {
      var q := n / base;
      assert q < n by {
        DivSmaller(n, base);
      }
      assert q >= 1 by {
        DivAtLeastOne(n, base);
      }
      NatToTextDigits(q, base);
      var t := NatToText(q, base);
      assert NatToText(n, base) == t + [Digit(n % base)];
      assert Digits[n % base] in Digits[..base];
      if |t| == 1 {
        assert t == [Digit(q)];
      }
    }
  }

  /** The value of a digit string in `base`, most significant digit first. */
  function TextToNat(s: string, base: nat): nat
  {
    if s == [] then 0
    else
      var high := TextToNat(s[..|s| - 1], base);
      MulNonneg(high, base);
      high * base + DigitValue(s[|s| - 1])
  }

  lemma TextToNatSnoc(prefix: string, c: char, base: nat)
    ensures TextToNat(prefix + [c], base) == TextToNat(prefix, base) * base + DigitValue(c)
  {
    assert (prefix + [c])[..|prefix|] == prefix;
  }

  /** Reading the rendered digits back gives the number. */
  lemma {:induction false} TextRoundTrip(n: nat, base: nat)
    requires 2 <= base <= 16
    ensures TextToNat(NatToText(n, base), base) == n
    decreases n
  {
    if n < base {
      TextToNatSnoc([], Digit(n), base);
      DigitValueOfDigit(n);
      assert [] + [Digit(n)] == NatToText(n, base);
      assert TextToNat([], base) == 0;
      MulZero(base);
    } else {
      assert n / base < n by {
        DivSmaller(n, base);
      }
      var t := NatToText(n / base, base);
      assert NatToText(n, base) == t + [Digit(n % base)];
      TextRoundTrip(n / base, base);
      RoundTripStep(n, base, t);
    }
  }

  lemma MulZero(b: int)
    ensures 0 * b == 0
  {
  }

  /** One digit more: appending the last digit of `n` to the text of `n / base`. */
  lemma RoundTripStep(n: nat, base: nat, t: string)
    requires 2 <= base <= 16 && n >= base
    requires TextToNat(t, base) == n / base
    ensures TextToNat(t + [Digit(n % base)], base) == n
  {
    TextToNatSnoc(t, Digit(n % base), base);
    DigitValueOfDigit(n % base);
    DivMod(n, base);
  }

  function Pow(b: nat, k: nat): nat
  {
    if k == 0 then 1
    else
      MulNonneg(b, Pow(b, k - 1));
      b * Pow(b, k - 1)
  }

  lemma {:induction false} PowPositive(b: nat, k: nat)
    requires b >= 1
    ensures Pow(b, k) >= 1
  {
    if k > 0 {
      PowPositive(b, k - 1);
    }
  }

  lemma {:induction false} PowAdd(b: nat, i: nat, j: nat)
    ensures Pow(b, i + j) == Pow(b, i) * Pow(b, j)
  {
    if i > 0 {
      PowAdd(b, i - 1, j);
      assert Pow(b, i + j) == b * Pow(b, i - 1 + j);
      assert Pow(b, i) * Pow(b, j) == b * (Pow(b, i - 1) * Pow(b, j));
    }
  }

  /** A number below `16^k` (k >= 1) takes at most `k` hex digits. */
  lemma {:induction false} HexLength(n: nat, k: nat)
    requires k >= 1 && n < Pow(16, k)
    ensures |Hex(n)| <= k
    decreases n
  {
    if n >= 16 {
      assert Pow(16, 1) == 16;
      assert Pow(16, k) == 16 * Pow(16, k - 1);
      assert Hex(n) == Hex(n / 16) + [Digit(n % 16)];
      HexLength(n / 16, k - 1);
    }
  }

  /** `n < b * p` implies `n / b < p`. */
  lemma DivBelow(n: nat, b: nat, p: nat)
    requires b >= 1 && n < b * p
    ensures n / b < p
  {
    DivMod(n, b);
    if n / b >= p {
      MulMonoRight(b, p, n / b);
      assert false;
    }
  }

  /** `n >= b` implies `n / b >= 1`. */
  lemma DivAtLeastOne(n: nat, b: nat)
    requires b >= 1 && n >= b
    ensures n / b >= 1
  {
    DivMod(n, b);
    if n / b <= 0 {
      MulMonoRight(b, n / b, 0);
      assert false;
    }
  }

  lemma {:induction false} MulNonneg(a: nat, b: nat)
    ensures a * b >= 0
    decreases b
  {
    if b > 0 {
      MulNonneg(a, b - 1);
      assert a * b == a * (b - 1) + a;
    }
  }

  lemma MulMonoRight(a: nat, x: int, y: int)
    requires x <= y
    ensures a * x <= a * y
  {
    MulNonneg(a, y - x);
    assert a * y == a * x + a * (y - x);
  }

  lemma DivMod(n: int, b: int)
    requires b > 0
    ensures n == b * (n / b) + n % b
  {
  }

  /** Dividing a positive number by at least two makes it smaller. */
  lemma DivSmaller(n: nat, b: nat)
    requires b >= 2 && n >= 1
    ensures n / b < n
  {
    MulMonoRight(n, 2, b);
    assert b * n == n * b;
    DivBelow(n, b, n);
  }

  /** Decimal rendering, as `%d` prints a non-negative integer. */
  function Decimal(n: nat): (s: string)
  {
    NatToText(n, 10)
  }

  /** Lower-case hexadecimal rendering, as `%x` prints an unsigned integer. */
  function Hex(n: nat): (s: string)
  {
    NatToText(n, 16)
  }

  /** The quotient and remainder of Euclidean division are unique. */
  lemma DivUnique(a: int, d: int, q: int, r: int)
    requires d > 0 && a == d * q + r && 0 <= r < d
    ensures a / d == q && a % d == r
  {
    var q', r' := a / d, a % d;
    assert d * (q' - q) == r - r' by {
      assert d * q' + r' == d * q + r;
    }
    MulBounded(d, q' - q);
  }

  /** A multiple of `d` strictly between `-d` and `d` is zero. */
  lemma MulBounded(d: int, k: int)
    requires d > 0 && -d < d * k < d
    ensures k == 0
  {
  }

  /** Dividing by `b` and then by `c` is dividing by `b * c`. */
  lemma DivDiv(a: nat, b: nat, c: nat)
    requires b > 0 && c > 0
    ensures a / b / c == a / (b * c)
  {
    var q, r := a / b, a % b;
    var q2, r2 := q / c, q % c;
    DivMod(a, b);
    DivMod(q, c);
    MulSplit(b, c, q2, r2);
    MulBelow(b, c, r2, r);
    DivUnique(a, b * c, q2, b * r2 + r);
  }

  /** `b * (c * q + r) == (b * c) * q + b * r`. */
  lemma MulSplit(b: int, c: int, q: int, r: int)
    ensures b * (c * q + r) == (b * c) * q + b * r
  {
    assert b * (c * q) == (b * c) * q;
  }

  /** With `r2 < c` and `r < b`: `b * r2 + r < b * c`. */
  lemma MulBelow(b: nat, c: nat, r2: nat, r: nat)
    requires r2 < c && r < b
    ensures b * r2 + r < b * c
  {
    MulMonoRight(b, r2 + 1, c);
    assert b * (r2 + 1) == b * r2 + b;
  }
}
