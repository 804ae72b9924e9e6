/** Positional numerals over an arbitrary base: the arithmetic that both
    directions of the Base58 codec rely on.  A digit sequence is read either
    little-endian (index 0 is the least significant digit, the layout of the
    codec's working accumulators) or big-endian (index 0 is the most
    significant digit, the layout of the codec's inputs and outputs). */
module Positional {

  /** Value of a little-endian digit sequence. */
  function LittleEndian(ds: seq<nat>, base: nat): nat
  {
    if ds == [] then 0 else ds[0] + base * LittleEndian(ds[1..], base)
  }

  /** Value of a big-endian digit sequence, by Horner's rule. */
  function BigEndian(ds: seq<nat>, base: nat): nat
  {
    if ds == [] then 0 else base * BigEndian(ds[..|ds| - 1], base) + ds[|ds| - 1]
  }

  function Pow(base: nat, n: nat): nat
  {
    if n == 0 then 1 else base * Pow(base, n - 1)
  }

  /** Appending a least significant digit d to a big-endian numeral. */
  lemma BigEndianPush(ds: seq<nat>, d: nat, base: nat)
    ensures BigEndian(ds + [d], base) == base * BigEndian(ds, base) + d
  {
    assert (ds + [d])[..|ds|] == ds;
  }

  /** Every digit is a digit of `base`. */
  predicate AllBelow(ds: seq<nat>, base: nat)
  {
    forall i :: 0 <= i < |ds| ==> ds[i] < base
  }

  /** A little-endian digit sequence without a most-significant zero digit. */
  predicate Trimmed(ds: seq<nat>)
  {
    ds == [] || ds[|ds| - 1] != 0
  }

  /** The shortest little-endian representation of `n` in `base`
      (empty for zero). */
  function ToDigits(n: nat, base: nat): (ds: seq<nat>)
    requires base >= 2
    ensures AllBelow(ds, base) && Trimmed(ds)
    ensures LittleEndian(ds, base) == n
    ensures ds == [] <==> n == 0
    decreases n
  {
    if n == 0 then []
    else
      DivModBasics(n, base);
      [n % base] + ToDigits(n / base, base)
  }

  /** The digit accumulator of a long multiplication that starts from the
      one-digit numeral [0] and never drops a digit: the shortest
      representation, except that zero keeps its single digit. */
  function Magnitude(n: nat, base: nat): (ds: seq<nat>)
    requires base >= 2
    ensures AllBelow(ds, base) && Canonical(ds)
    ensures LittleEndian(ds, base) == n
  {
    if n == 0 then [0] else ToDigits(n, base)
  }

  /** The accumulator shape that the long multiplications maintain: at least
      one digit, and a most-significant zero only in the numeral [0]. */
  predicate Canonical(ds: seq<nat>)
  {
    |ds| >= 1 && (|ds| == 1 || ds[|ds| - 1] != 0)
  }

  function Reversed<T>(s: seq<T>): (r: seq<T>)
    ensures |r| == |s|
  {
    if s == [] then [] else [s[|s| - 1]] + Reversed(s[..|s| - 1])
  }

  function Repeat<T>(x: T, n: nat): (r: seq<T>)
    ensures |r| == n
    ensures forall k :: 0 <= k < n ==> r[k] == x
  {
    if n == 0 then [] else [x] + Repeat(x, n - 1)
  }

  /** Number of copies of `x` at the front of `s`. */
  function LeadingCount<T(==)>(s: seq<T>, x: T): (n: nat)
    ensures n <= |s|
    ensures forall k :: 0 <= k < n ==> s[k] == x
    ensures n < |s| ==> s[n] != x
  {
    if s != [] && s[0] == x then 1 + LeadingCount(s[1..], x) else 0
  }

  // ---------------------------------------------------------------------
  // Reversal

  lemma {:induction false} ReversedAt<T>(s: seq<T>, k: nat)
    requires k < |s|
    ensures |Reversed(s)| == |s| && Reversed(s)[k] == s[|s| - 1 - k]
  {
    if k > 0 {
      ReversedAt(s[..|s| - 1], k - 1);
    } else if |s| > 1 {
      ReversedLength(s[..|s| - 1]);
    }
  }

  lemma {:induction false} ReversedLength<T>(s: seq<T>)
    ensures |Reversed(s)| == |s|
  {
    if s != [] {
      ReversedLength(s[..|s| - 1]);
    }
  }

  lemma ReversedInvolution<T>(s: seq<T>)
    ensures Reversed(Reversed(s)) == s
  {
    ReversedLength(s);
    ReversedLength(Reversed(s));
    forall k | 0 <= k < |s| ensures Reversed(Reversed(s))[k] == s[k] {
      ReversedAt(Reversed(s), k);
      ReversedAt(s, |s| - 1 - k);
    }
  }

  lemma ReversedAppend<T>(a: seq<T>, b: seq<T>)
    ensures Reversed(a + b) == Reversed(b) + Reversed(a)
  {
    ReversedLength(a);
    ReversedLength(b);
    ReversedLength(a + b);
    forall k | 0 <= k < |a| + |b| ensures Reversed(a + b)[k] == (Reversed(b) + Reversed(a))[k] {
      ReversedAt(a + b, k);
      if k < |b| {
        ReversedAt(b, k);
      } else {
        ReversedAt(a, k - |b|);
      }
    }
  }

  lemma ReversedAllBelow(s: seq<nat>, base: nat)
    requires AllBelow(s, base)
    ensures AllBelow(Reversed(s), base)
  {
    ReversedLength(s);
    forall k | 0 <= k < |s| ensures Reversed<nat>(s)[k] < base {
      ReversedAt(s, k);
    }
  }

  lemma ReversedRepeat<T>(x: T, n: nat)
    ensures Reversed(Repeat(x, n)) == Repeat(x, n)
  {
    ReversedLength(Repeat(x, n));
    forall k | 0 <= k < n ensures Reversed(Repeat(x, n))[k] == x {
      ReversedAt(Repeat(x, n), k);
    }
  }

  // ---------------------------------------------------------------------
  // Values of digit sequences

  lemma {:induction false} LittleEndianAppend(a: seq<nat>, b: seq<nat>, base: nat)
    ensures LittleEndian(a + b, base) == LittleEndian(a, base) + Pow(base, |a|) * LittleEndian(b, base)
  {
    if a == [] {
      assert a + b == b;
    } else {
      assert (a + b)[1..] == a[1..] + b;
      LittleEndianAppend(a[1..], b, base);
      HornerStep(a[0], base, LittleEndian(a[1..], base), Pow(base, |a| - 1), LittleEndian(b, base));
    }
  }

  /** The arithmetic of one step of LittleEndianAppend. */
  lemma HornerStep(d: nat, base: nat, l: nat, p: nat, v: nat)
    ensures d + base * (l + p * v) == (d + base * l) + (base * p) * v
  {
    MulDistributes(base, l, p * v);
    MulAssociates(base, p, v);
  }

  lemma MulDistributes(x: nat, y: nat, z: nat)
    ensures x * (y + z) == x * y + x * z
  {
  }

  lemma MulAssociates(x: nat, y: nat, z: nat)
    ensures x * (y * z) == (x * y) * z
  {
  }

  /** A sequence of zero digits has value zero. */
  lemma {:induction false} LittleEndianZeros(n: nat, base: nat)
    ensures LittleEndian(Repeat(0, n), base) == 0
  {
    if n > 0 {
      assert Repeat(0, n)[1..] == Repeat(0, n - 1);
      LittleEndianZeros(n - 1, base);
    }
  }

  /** Reading a sequence big-endian is reading its reversal little-endian. */
  lemma {:induction false} BigEndianIsReversedLittleEndian(s: seq<nat>, base: nat)
    ensures BigEndian(s, base) == LittleEndian(Reversed(s), base)
  {
    if s != [] {
      BigEndianIsReversedLittleEndian(s[..|s| - 1], base);
      assert Reversed(s)[1..] == Reversed(s[..|s| - 1]);
    }
  }

  /** Leading zero digits do not change a big-endian value. */
  lemma BigEndianLeadingZeros(z: nat, s: seq<nat>, base: nat)
    ensures BigEndian(Repeat(0, z) + s, base) == BigEndian(s, base)
  {
    var zs: seq<nat> := Repeat(0, z);
    calc {
      BigEndian(zs + s, base);
      { BigEndianIsReversedLittleEndian(zs + s, base); }
      LittleEndian(Reversed(zs + s), base);
      { ReversedAppend(zs, s); ReversedRepeat<nat>(0, z); }
      LittleEndian(Reversed(s) + zs, base);
      { LittleEndianAppend(Reversed(s), zs, base); LittleEndianZeros(z, base); }
      LittleEndian(Reversed(s), base);
      { BigEndianIsReversedLittleEndian(s, base); }
      BigEndian(s, base);
    }
  }

  /** A little-endian numeral whose most significant digit is not zero has a
      positive value. */
  lemma {:induction false} TrimmedNonEmptyIsPositive(ds: seq<nat>, base: nat)
    requires base >= 1 && ds != [] && Trimmed(ds)
    ensures LittleEndian(ds, base) > 0
  {
    if |ds| > 1 {
      assert ds[1..][|ds[1..]| - 1] == ds[|ds| - 1];
      TrimmedNonEmptyIsPositive(ds[1..], base);
    }
  }

  /** A value has exactly one trimmed representation: every trimmed digit
      sequence is the one ToDigits produces. */
  lemma {:induction false} TrimmedIsToDigits(ds: seq<nat>, base: nat)
    requires base >= 2 && AllBelow(ds, base) && Trimmed(ds)
    ensures ds == ToDigits(LittleEndian(ds, base), base)
  {
    if ds != [] {
      var rest := ds[1..];
      var v := LittleEndian(ds, base);
      assert rest == [] || rest[|rest| - 1] == ds[|ds| - 1];
      TrimmedIsToDigits(rest, base);
      TrimmedNonEmptyIsPositive(ds, base);
      DivModOfDigit(ds[0], LittleEndian(rest, base), base);
      assert ToDigits(v, base) == [v % base] + ToDigits(v / base, base);
    }
  }

  // ---------------------------------------------------------------------
  // Arithmetic with a symbolic base

  lemma DivModBasics(n: nat, base: nat)
    requires base >= 2
    ensures n == base * (n / base) + n % base && n % base < base
    ensures 0 <= n / base && (n > 0 ==> n / base < n)
  {
    MulMonotone(2, base, n / base);
  }

  lemma MulMonotone(a: nat, b: nat, m: nat)
    ensures a <= b ==> a * m <= b * m
  {
    if a <= b {
      MulDistributes(m, a, b - a);
    }
  }

  /** In a long multiplication by `mul` in base `base`, a carry below `mul`
      stays below `mul`, and the intermediate product stays below
      mul * base. */
  lemma CarryBound(d: nat, carry: nat, mul: nat, base: nat)
    requires base >= 2 && d < base && carry < mul
    ensures d * mul + carry < mul * base
    ensures (d * mul + carry) / base < mul
  {
    MulMonotone(d, base - 1, mul);
    MulDistributes(mul, base - 1, 1);
    var x := d * mul + carry;
    var q := x / base;
    DivModBasics(x, base);
    MulMonotone(mul, q, base);
  }

  lemma MulAtLeast(x: nat, k: nat)
    requires k >= 1
    ensures x * k >= x
  {
  }

  /** Quotient and remainder of `d + base * q` by `base`, for a digit `d`. */
  lemma DivModOfDigit(d: nat, q: nat, base: nat)
    requires d < base
    ensures (d + base * q) % base == d && (d + base * q) / base == q
  {
    var n := d + base * q;
    var q' := n / base;
    if q' > q {
      MulDistributes(base, q, q' - q);
      MulAtLeast(base, q' - q);
      assert false;
    } else if q' < q {
      MulDistributes(base, q', q - q');
      MulAtLeast(base, q - q');
      assert false;
    }
  }

  /** The accumulators' canonical shape determines them by their value. */
  lemma CanonicalIsMagnitude(ds: seq<nat>, base: nat)
    requires base >= 2 && AllBelow(ds, base) && Canonical(ds)
    ensures ds == Magnitude(LittleEndian(ds, base), base)
  {
    if |ds| == 1 {
      assert ds[1..] == [];
      if ds[0] != 0 {
        TrimmedIsToDigits(ds, base);
      }
    } else {
      TrimmedIsToDigits(ds, base);
      TrimmedNonEmptyIsPositive(ds, base);
    }
  }

  /** Reading a big-endian sequence and writing the value back out gives the
      sequence without its leading zeros. */
  lemma StripsLeadingZeros(s: seq<nat>, base: nat)
    requires base >= 2 && AllBelow(s, base)
    ensures Reversed(ToDigits(BigEndian(s, base), base)) == s[LeadingCount(s, 0)..]
  {
    var z := LeadingCount(s, 0);
    var r := s[z..];
    var zs: seq<nat> := Repeat(0, z);
    assert s == zs + r;
    var rr := Reversed(r);
    ReversedLength(r);
    forall k | 0 <= k < |rr| ensures rr[k] < base {
      ReversedAt(r, k);
    }
    if r != [] {
      ReversedAt(r, |r| - 1);
    }
    assert Trimmed(rr);
    TrimmedIsToDigits(rr, base);
    calc {
      BigEndian(s, base);
      { BigEndianLeadingZeros(z, r, base); }
      BigEndian(r, base);
      { BigEndianIsReversedLittleEndian(r, base); }
      LittleEndian(rr, base);
    }
    ReversedInvolution(r);
  }

  // ---------------------------------------------------------------------
  // One step of a long multiplication by a small factor

  /** Writing `x % base` as the next digit and carrying `x / base` one place
      further keeps the value of digits-plus-carry. */
  lemma SplitCarry(ds: seq<nat>, x: nat, base: nat)
    requires base >= 2
    ensures LittleEndian(ds + [x % base], base) + Pow(base, |ds| + 1) * (x / base)
         == LittleEndian(ds, base) + Pow(base, |ds|) * x
  {
    DivModBasics(x, base);
    SplitDigit(ds, x, x / base, x % base, base);
  }

  /** Writing x = base * q + r as the digit r with q carried above it. */
  lemma SplitDigit(ds: seq<nat>, x: nat, q: nat, r: nat, base: nat)
    requires x == base * q + r
    ensures LittleEndian(ds + [r], base) + Pow(base, |ds| + 1) * q
         == LittleEndian(ds, base) + Pow(base, |ds|) * x
  {
    LittleEndianAppend(ds, [r], base);
    assert LittleEndian([r], base) == r;
    ScaledSplit(Pow(base, |ds|), base, x, q, r);
  }

  /** Scaling x = base * q + r by p. */
  lemma ScaledSplit(p: nat, base: nat, x: nat, q: nat, r: nat)
    requires x == base * q + r
    ensures p * r + (base * p) * q == p * x
  {
    MulDistributes(p, base * q, r);
    MulAssociates(p, base, q);
    MulCommutes(base, p);
  }

  lemma MulCommutes(x: nat, y: nat)
    ensures x * y == y * x
  {
  }

  /** One step of the inner loop of a long multiplication by `mul`: after
      the low digits `lo` of the product and the pending carry account for
      `mul` times the low digits `prevLo` of the multiplicand plus the
      addend `c0`, folding in the next multiplicand digit `d` keeps that
      account for one more digit. */
  lemma MulAddStep(lo: seq<nat>, prevLo: seq<nat>, d: nat, carry: nat, c0: nat, mul: nat, base: nat,
                   q: nat, r: nat)
    requires |lo| == |prevLo| && d * mul + carry == base * q + r
    requires LittleEndian(lo, base) + Pow(base, |lo|) * carry == mul * LittleEndian(prevLo, base) + c0
    ensures LittleEndian(lo + [r], base) + Pow(base, |lo| + 1) * q
         == mul * LittleEndian(prevLo + [d], base) + c0
  {
    var x := d * mul + carry;
    var l, lp, p := LittleEndian(lo, base), LittleEndian(prevLo, base), Pow(base, |lo|);
    SplitDigit(lo, x, q, r, base);
    assert LittleEndian(prevLo + [d], base) == lp + p * d by {
      LittleEndianAppend(prevLo, [d], base);
      assert LittleEndian([d], base) == d;
    }
    AccountStep(l, lp, p, carry, d, mul, c0);
  }

  lemma AccountStep(l: nat, lp: nat, p: nat, carry: nat, d: nat, mul: nat, c0: nat)
    requires l + p * carry == mul * lp + c0
    ensures l + p * (d * mul + carry) == mul * (lp + p * d) + c0
  {
    MulDistributes(p, d * mul, carry);
    MulAssociates(p, d, mul);
    MulCommutes(p * d, mul);
    MulDistributes(mul, lp, p * d);
  }
}
