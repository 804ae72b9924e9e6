/** The in-place long multiplication that both Base58 routines run once per
    input symbol, on a little-endian accumulator of digits. */
module LongMultiplication {
  import opened Positional

  /** The carry-propagation loops that both routines run once per input
      symbol (src/components/Tools.jsx:21-30 with mul = 256, base = 58, and
      src/components/Tools.jsx:48-57 with mul = 58, base = 256): multiply the
      little-endian accumulator by `mul` in place and add `addend`, digit by
      digit, then push the remaining carry as new top digits.  Every
      intermediate x is below mul * base = 14848 < 2^14, so JavaScript's
      `(x / 58) | 0`, `x & 0xff` and `x >> 8` are exactly the floor quotient
      and remainder used here. */
  method MultiplyAdd(digits: seq<nat>, mul: nat, base: nat, addend: nat) returns (acc: seq<nat>)
    requires base >= 2 && addend < mul
    requires AllBelow(digits, base) && Canonical(digits)
    ensures AllBelow(acc, base) && Canonical(acc)
    ensures LittleEndian(acc, base) == mul * LittleEndian(digits, base) + addend
  {
    var low, carry := MultiplyDigits(digits, mul, base, addend);
    acc := PushCarry(low, carry, base);
  }

  /** The `for j` loop: every digit becomes (digit * mul + carry) % base and
      the quotient is carried to the next digit. */
  method MultiplyDigits(digits: seq<nat>, mul: nat, base: nat, addend: nat) returns (acc: seq<nat>, carry: nat)
    requires base >= 2 && addend < mul
    requires AllBelow(digits, base) && Canonical(digits)
    ensures CarryPending(digits, mul, base, addend, acc, carry)
  {
    acc := digits;
    carry := addend;
    for j := 0 to |acc|
      invariant PartialProduct(digits, mul, base, addend, j, acc, carry)
    {
      var x := acc[j] * mul + carry;
      PartialProductStep(digits, mul, base, addend, j, acc, carry, x);
      acc := acc[j := x % base];
      carry := x / base;
    }
    PartialProductDone(digits, mul, base, addend, acc, carry);
  }

  /** The `while (carry)` loop: the carry left over after the last digit is
      pushed, base digit by base digit, as new top digits. */
  method PushCarry(low: seq<nat>, carry: nat, base: nat) returns (acc: seq<nat>)
    requires base >= 2 && AllBelow(low, base)
    requires carry == 0 ==> Canonical(low)
    ensures AllBelow(acc, base) && Canonical(acc)
    ensures LittleEndian(acc, base) == LittleEndian(low, base) + Pow(base, |low|) * carry
  {
    acc := low;
    var rest: nat := carry;
    while rest > 0
      invariant AllBelow(acc, base)
      invariant LittleEndian(acc, base) + Pow(base, |acc|) * rest == LittleEndian(low, base) + Pow(base, |low|) * carry
      invariant rest == 0 ==> Canonical(acc)
      decreases rest
    {
      CarryStep(acc, rest, base);
      acc := acc + [rest % base];
      rest := rest / base;
    }
  }

  /** The state of the digit-by-digit loop of MultiplyAdd after `j` digits:
      the low `j` digits of `acc` and the carry account for `mul` times the
      low `j` digits of `digits` plus `addend`, the other digits are still
      the old ones, and a carry that died out at digit j - 1 left a nonzero
      digit there unless the old digit was zero. */
  ghost predicate PartialProduct(digits: seq<nat>, mul: nat, base: nat, addend: nat,
                                 j: nat, acc: seq<nat>, carry: nat)
  {
    && j <= |acc| == |digits|
    && AllBelow(acc, base)
    && acc[j..] == digits[j..]
    && carry < mul
    && LittleEndian(acc[..j], base) + Pow(base, j) * carry == mul * LittleEndian(digits[..j], base) + addend
    && (0 < j && carry == 0 ==> digits[j - 1] == 0 || acc[j - 1] != 0)
  }

  /** One digit of the loop: writing x % base at j, for x = acc[j] * mul +
      carry, and carrying x / base keeps PartialProduct. */
  lemma PartialProductStep(digits: seq<nat>, mul: nat, base: nat, addend: nat,
                           j: nat, acc: seq<nat>, carry: nat, x: nat)
    requires base >= 2 && AllBelow(digits, base)
    requires PartialProduct(digits, mul, base, addend, j, acc, carry) && j < |acc|
    requires x == acc[j] * mul + carry
    ensures 0 <= x % base && 0 <= x / base
    ensures PartialProduct(digits, mul, base, addend, j + 1, acc[j := x % base], x / base)
  {
    CarryBound(acc[j], carry, mul, base);
    DivModBasics(x, base);
    DigitStep(digits, mul, base, addend, j, acc, carry, x % base, x / base);
  }

  lemma DigitStep(digits: seq<nat>, mul: nat, base: nat, addend: nat,
                  j: nat, acc: seq<nat>, carry: nat, r: nat, q: nat)
    requires base >= 2 && AllBelow(digits, base)
    requires PartialProduct(digits, mul, base, addend, j, acc, carry) && j < |acc|
    requires acc[j] * mul + carry == base * q + r && r < base && q < mul
    ensures PartialProduct(digits, mul, base, addend, j + 1, acc[j := r], q)
  {
    var acc' := acc[j := r];
    assert acc[j] == digits[j] by {
      assert acc[j..][0] == digits[j..][0];
    }
    assert LittleEndian(acc'[..j + 1], base) + Pow(base, j + 1) * q
        == mul * LittleEndian(digits[..j + 1], base) + addend by {
      MulAddStep(acc[..j], digits[..j], acc[j], carry, addend, mul, base, q, r);
      assert digits[..j + 1] == digits[..j] + [acc[j]];
      assert acc'[..j + 1] == acc[..j] + [r];
    }
    assert acc'[j + 1..] == digits[j + 1..] by {
      assert acc'[j + 1..] == acc[j + 1..] == acc[j..][1..];
    }
    assert q == 0 && r == 0 ==> acc[j] == 0 by {
      MulMonotone(1, acc[j], mul);
    }
  }

  /** What the `for j` loop leaves: as many digits as before, a carry below
      `mul`, the digits of `acc` and the carry above them accounting for the
      product, and without a carry a canonical accumulator. */
  ghost predicate CarryPending(digits: seq<nat>, mul: nat, base: nat, addend: nat,
                               acc: seq<nat>, carry: nat)
  {
    && |acc| == |digits|
    && carry < mul
    && AllBelow(acc, base)
    && LittleEndian(acc, base) + Pow(base, |acc|) * carry == mul * LittleEndian(digits, base) + addend
    && (carry == 0 ==> Canonical(acc))
  }

  /** The digit-by-digit loop has run over every digit. */
  lemma PartialProductDone(digits: seq<nat>, mul: nat, base: nat, addend: nat,
                           acc: seq<nat>, carry: nat)
    requires Canonical(digits)
    requires PartialProduct(digits, mul, base, addend, |acc|, acc, carry)
    ensures CarryPending(digits, mul, base, addend, acc, carry)
  {
    assert acc[..|acc|] == acc && digits[..|digits|] == digits;
  }

  /** One pass of the loop that pushes the remaining carry: its low digit
      becomes the new top digit and the rest carries on. */
  lemma CarryStep(acc: seq<nat>, carry: nat, base: nat)
    requires base >= 2 && carry > 0 && AllBelow(acc, base)
    ensures AllBelow(acc + [carry % base], base)
    ensures LittleEndian(acc + [carry % base], base) + Pow(base, |acc| + 1) * (carry / base)
         == LittleEndian(acc, base) + Pow(base, |acc|) * carry
    ensures carry / base == 0 ==> Canonical(acc + [carry % base])
    ensures 0 <= carry / base < carry
  {
    SplitCarry(acc, carry, base);
    DivModBasics(carry, base);
  }
}
