/** How many digits a value needs: the bounds that relate the length of a
    numeral in one base to its length in another. */
module DigitCount {
  import opened Positional

  lemma PowPositive(base: nat, k: nat)
    requires base >= 1
    ensures Pow(base, k) >= 1
  {
    if k > 0 {
      PowPositive(base, k - 1);
      MulAtLeast(Pow(base, k - 1), base);
      MulCommutes(Pow(base, k - 1), base);
    }
  }

  /** A larger base gives a larger power. */
  lemma {:induction false} PowMonotoneBase(a: nat, b: nat, k: nat)
    requires a <= b
    ensures Pow(a, k) <= Pow(b, k)
  {
    if k > 0 {
      PowMonotoneBase(a, b, k - 1);
      MulMonotone(a, b, Pow(a, k - 1));
      MulMonotone(Pow(a, k - 1), Pow(b, k - 1), b);
      MulCommutes(Pow(a, k - 1), b);
    }
  }

  /** A larger exponent gives a larger power. */
  lemma {:induction false} PowMonotoneExp(base: nat, j: nat, k: nat)
    requires base >= 1 && j <= k
    ensures Pow(base, j) <= Pow(base, k)
  {
    if j < k {
      PowMonotoneExp(base, j, k - 1);
      MulAtLeast(Pow(base, k - 1), base);
      MulCommutes(Pow(base, k - 1), base);
    }
  }

  /** Powers add their exponents. */
  lemma {:induction false} PowAdd(base: nat, j: nat, k: nat)
    ensures Pow(base, j + k) == Pow(base, j) * Pow(base, k)
  {
    if k > 0 {
      PowAdd(base, j, k - 1);
      MulAssociates(base, Pow(base, j), Pow(base, k - 1));
      MulAssociates(Pow(base, j), base, Pow(base, k - 1));
      MulCommutes(base, Pow(base, j));
    }
  }

  /** A numeral of n digits is below base^n. */
  lemma {:induction false} LittleEndianBelowPow(ds: seq<nat>, base: nat)
    requires base >= 1 && AllBelow(ds, base)
    ensures LittleEndian(ds, base) < Pow(base, |ds|)
  {
    if ds != [] {
      var rest := ds[1..];
      LittleEndianBelowPow(rest, base);
      var l := LittleEndian(rest, base);
      var p := Pow(base, |rest|);
      MulMonotone(l + 1, p, base);
      MulDistributes(base, l, 1);
      MulCommutes(l + 1, base);
      MulCommutes(p, base);
    }
  }

  /** A trimmed numeral of n > 0 digits is at least base^(n - 1). */
  lemma {:induction false} TrimmedAtLeastPow(ds: seq<nat>, base: nat)
    requires base >= 1 && ds != [] && Trimmed(ds)
    ensures LittleEndian(ds, base) >= Pow(base, |ds| - 1)
  {
    if |ds| == 1 {
      assert ds[1..] == [];
    } else {
      var rest := ds[1..];
      assert rest[|rest| - 1] == ds[|ds| - 1];
      TrimmedAtLeastPow(rest, base);
      MulMonotone(Pow(base, |rest| - 1), LittleEndian(rest, base), base);
      MulCommutes(Pow(base, |rest| - 1), base);
      MulCommutes(LittleEndian(rest, base), base);
    }
  }

  /** A value below base^k has at most k digits. */
  lemma ToDigitsAtMost(n: nat, base: nat, k: nat)
    requires base >= 2 && n < Pow(base, k)
    ensures |ToDigits(n, base)| <= k
  {
    var ds := ToDigits(n, base);
    if |ds| > k {
      TrimmedAtLeastPow(ds, base);
      PowMonotoneExp(base, k, |ds| - 1);
      assert false;
    }
  }

  /** A value of at least base^k has more than k digits. */
  lemma ToDigitsMoreThan(n: nat, base: nat, k: nat)
    requires base >= 2 && Pow(base, k) <= n
    ensures |ToDigits(n, base)| > k
  {
    var ds := ToDigits(n, base);
    LittleEndianBelowPow(ds, base);
    if |ds| <= k {
      PowMonotoneExp(base, |ds|, k);
      assert false;
    }
  }

  /** x * b <= c * b with b > 0 gives x <= c. */
  lemma MulCancel(x: nat, b: nat, c: nat)
    requires b >= 1 && x * b <= c * b
    ensures x <= c
  {
    MulMonotone(c + 1, x, b);
    MulDistributes(b, c, 1);
    MulCommutes(c + 1, b);
    MulCommutes(c, b);
  }
}
