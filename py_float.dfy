/**
 * Python's `float(token)` on the tokens the ping pattern can hand it: a run of
 * digits, or two runs of digits around one other character. The value is an
 * exact `real`; the binary rounding of a Python float is not modelled.
 */
module PyFloat {
  import opened Wrappers
  import opened PingPattern

  /** Value of a string of decimal digits. */
  function DigitsValue(d: string): nat
    requires AllDigits(d)
    decreases |d|
  {
    if d == [] then 0 else DigitsValue(d[..|d| - 1]) * 10 + ((d[|d| - 1] as int) - ('0' as int))
  }

  function Pow10(n: nat): (p: nat)
    ensures p >= 1
  {
    if n == 0 then 1 else 10 * Pow10(n - 1)
  }

  /**
   * `float(t)`: digits alone, or digits, one of `.`, `e`, `E`, `_`, digits.
   * Any other shape raises `ValueError`, given here as `None`.
   */
  function ParseFloat(t: string): (r: Option<real>)
    ensures r.Some? ==> r.value >= 0.0
  {
    var x := RunEnd(t, 0);
    if x == |t| then
      if x == 0 then None else Some(DigitsValue(t) as real)
    else if x == 0 || x == |t| - 1 || !AllDigits(t[x + 1..]) then None
    else
      var a, b := t[..x], t[x + 1..];
      if t[x] == '.' then
        NonNegativeQuotient(DigitsValue(b), Pow10(|b|));
        Some(DigitsValue(a) as real + DigitsValue(b) as real / Pow10(|b|) as real)
      else if t[x] == 'e' || t[x] == 'E' then Some((DigitsValue(a) * Pow10(DigitsValue(b))) as real)
      else if t[x] == '_' then Some(DigitsValue(a + b) as real)
      else None
  }

  lemma NonNegativeQuotient(n: nat, p: nat)
    requires p >= 1
    ensures n as real / p as real >= 0.0
  {
  }

  /** Appending digits shifts the value left by their number of places. */
  lemma {:induction false} DigitsValueAppend(a: string, b: string)
    requires AllDigits(a) && AllDigits(b)
    ensures AllDigits(a + b)
    ensures DigitsValue(a + b) == DigitsValue(a) * Pow10(|b|) + DigitsValue(b)
    decreases |b|
  {
    assert AllDigits(a + b) by {
      forall k | 0 <= k < |a + b| ensures IsDigit((a + b)[k]) {
        if k < |a| { assert (a + b)[k] == a[k]; } else { assert (a + b)[k] == b[k - |a|]; }
      }
    }
    if b == [] {
      assert a + b == a;
    } else {
      var b' := b[..|b| - 1];
      assert AllDigits(b') by {
        forall k | 0 <= k < |b'| ensures IsDigit(b'[k]) { assert b'[k] == b[k]; }
      }
      assert (a + b)[..|a + b| - 1] == a + b';
      assert (a + b)[|a + b| - 1] == b[|b| - 1];
      DigitsValueAppend(a, b');
      var d := (b[|b| - 1] as int) - ('0' as int);
      assert DigitsValue(a + b) == DigitsValue(a + b') * 10 + d;
      assert DigitsValue(b) == DigitsValue(b') * 10 + d;
      assert Pow10(|b|) == 10 * Pow10(|b'|);
      ShiftDigit(DigitsValue(a), Pow10(|b'|), DigitsValue(b'), d);
    }
  }

  /** The arithmetic step of `DigitsValueAppend`. */
  lemma ShiftDigit(x: nat, p: nat, y: nat, d: int)
    ensures (x * p + y) * 10 + d == x * (10 * p) + (y * 10 + d)
  {
  }

  lemma RunEndOfToken(a: string, c: char, b: string)
    requires AllDigits(a) && !IsDigit(c)
    ensures RunEnd(a + [c] + b, 0) == |a|
  {
    var t := a + [c] + b;
    assert forall m :: 0 <= m < |a| ==> t[m] == a[m];
    RunEndCovers(t, 0, |a|);
    assert t[|a|] == c;
  }

  /** A decimal token `a.b` is the number `ab` scaled down by `|b|` places. */
  lemma DecimalToken(a: string, b: string)
    requires AllDigits(a) && AllDigits(b) && a != [] && b != []
    ensures AllDigits(a + b) && ParseFloat(a + "." + b) == Some(DigitsValue(a + b) as real / Pow10(|b|) as real)
  {
    var t := a + "." + b;
    RunEndOfToken(a, '.', b);
    assert t[..|a|] == a && t[|a| + 1..] == b;
    assert t[|a|] == '.';
    var va, vb, p := DigitsValue(a), DigitsValue(b), Pow10(|b|);
    assert ParseFloat(t) == Some(va as real + vb as real / p as real);
    DigitsValueAppend(a, b);
    ShiftPoint(va, vb, p, DigitsValue(a + b));
  }

  lemma ShiftPoint(x: nat, y: nat, p: nat, n: nat)
    requires p >= 1 && n == x * p + y
    ensures n as real / p as real == x as real + y as real / p as real
  {
    assert n as real == x as real * p as real + y as real;
  }

  /**
   * A token whose middle character is an ASCII character other than a digit,
   * `.`, `e`, `E` or `_` raises `ValueError`. (A non-ASCII decimal digit there
   * would be read as a digit by `float`; the model does not cover those.)
   */
  lemma RejectedSeparator(a: string, c: char, b: string)
    requires AllDigits(a) && AllDigits(b) && a != [] && b != []
    requires (c as int) < 128 && !IsDigit(c) && c !in {'.', 'e', 'E', '_'}
    ensures ParseFloat(a + [c] + b) == None
  {
    var t := a + [c] + b;
    RunEndOfToken(a, c, b);
    assert t[|a|] == c && t[|a| + 1..] == b;
  }
}
