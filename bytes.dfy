/** The integer part of `formatBytes` (utils.go): the choice between a plain
    byte count and a scaled one, and the unit-selection loop. */
module ByteUnits {
  import opened Format

  const Unit: nat := 1024

  /** The unit letters, indexed by the loop's final `exp`. */
  const Units: string := "KMGTPE"

  /** What `formatBytes` prints: `"%d B"` below one unit, otherwise
      `bytes / div` as `"%.1f"` followed by the unit letter and `B`; that
      floating-point text is not modelled, the quotient's parts are. */
  datatype ByteText = Plain(text: string) | Scaled(bytes: nat, div: nat, unit: char)

  /** How many more times the loop divides, started from `n = bytes / 1024`. */
  function Exponent(n: nat): nat
    decreases n
  {
    if n < Unit then 0 else 1 + Exponent(n / Unit)
  }

  /** The value `formatBytes(bytes)` renders; `bytes` is a `uint64`. */
  function Formatted(bytes: nat): ByteText
    requires bytes < Uint64Limit
  {
    if bytes < Unit then Plain(Decimal(bytes) + " B")
    else
      var exp := Exponent(bytes / Unit);
      ExponentAtMostFive(bytes);
      Scaled(bytes, Pow(Unit, exp + 1), Units[exp])
  }

  /** `formatBytes`, with its loop dividing `n` and multiplying `div` by 1024. */
  method FormatBytes(bytes: nat) returns (r: ByteText)
    requires bytes < Uint64Limit
    ensures r == Formatted(bytes)
  {
    if bytes < Unit {
      return Plain(Decimal(bytes) + " B");
    }
    var div: nat, exp: nat := Unit, 0;
    var n := bytes / Unit;
    while n >= Unit
      invariant div == Pow(Unit, exp + 1) && div >= Unit
      invariant n == bytes / div
      invariant exp + Exponent(n) == Exponent(bytes / Unit)
      decreases n
    {
      DivDiv(bytes, div, Unit);
      div := div * Unit;
      exp := exp + 1;
      n := n / Unit;
    }
    ExponentAtMostFive(bytes);
    return Scaled(bytes, div, Units[exp]);
  }

  /** For a count of at least one unit, `div = 1024^(exp+1)` scales it into
      `[1, 1024)`. */
  lemma {:induction false} ExponentScales(n: nat)
    requires n >= 1
    ensures Pow(Unit, Exponent(n)) <= n < Pow(Unit, Exponent(n) + 1)
    decreases n
  {
    if n >= Unit {
      var q := n / Unit;
      ExponentScales(q);
      var p := Pow(Unit, Exponent(q));
      assert Pow(Unit, Exponent(n)) == Unit * p;
      assert Pow(Unit, Exponent(n) + 1) == Unit * Pow(Unit, Exponent(q) + 1);
      DivMod(n, Unit);
    }
  }

  /** A count below `1024^k` needs fewer than `k` further divisions. */
  lemma {:induction false} ExponentBelow(n: nat, k: nat)
    requires k >= 1 && n < Pow(Unit, k)
    ensures Exponent(n) <= k - 1
    decreases n
  {
    if n >= Unit {
      assert k >= 2;
      DivBelow(n, Unit, Pow(Unit, k - 1));
      ExponentBelow(n / Unit, k - 1);
    }
  }

  /** Every `uint64` gets one of the six unit letters. */
  lemma ExponentAtMostFive(bytes: nat)
    requires bytes < Uint64Limit
    ensures Exponent(bytes / Unit) <= 5
  {
    assert Pow(Unit, 1) == 1024;
    assert Pow(Unit, 2) == 1048576;
    assert Pow(Unit, 3) == 1073741824;
    assert Pow(Unit, 4) == 1099511627776;
    assert Pow(Unit, 5) == 1125899906842624;
    assert Pow(Unit, 6) == 1152921504606846976;
    ExponentBelow(bytes / Unit, 6);
  }

  /** Below 1024 the text is the decimal count followed by `" B"`; from 1024
      on, `div = 1024^(exp+1)` with `1 <= bytes / div < 1024`, the letter is
      `"KMGTPE"[exp]` with `exp <= 5`, and `div` never exceeds `bytes`, so the
      `uint64` multiplication `div *= unit` does not wrap. */
  lemma FormattedShape(bytes: nat)
    requires bytes < Uint64Limit
    ensures bytes < Unit ==> Formatted(bytes) == Plain(Decimal(bytes) + " B")
    ensures bytes >= Unit ==>
      exists exp :: 0 <= exp <= 5 && Formatted(bytes) == Scaled(bytes, Pow(Unit, exp + 1), Units[exp])
    ensures bytes >= Unit ==> var d := Formatted(bytes).div;
      && Unit <= d <= bytes
      && 1 <= bytes / d < Unit
  {
    if bytes >= Unit {
      var n := bytes / Unit;
      var exp := Exponent(n);
      ExponentAtMostFive(bytes);
      ExponentScales(n);
      var d := Pow(Unit, exp + 1);
      assert d == Unit * Pow(Unit, exp);
      DivDiv(bytes, Unit, Pow(Unit, exp));
      assert bytes / d == n / Pow(Unit, exp);
      PowPositive(Unit, exp);
      DivMod(n, Pow(Unit, exp));
      DivBelow(n, Pow(Unit, exp), Unit);
      assert Formatted(bytes) == Scaled(bytes, d, Units[exp]);
    }
  }
}
