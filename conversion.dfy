/** The digit-level computation that both directions of the Base58 codec
    share: read a big-endian digit sequence in one base and write its value
    big-endian in another, keeping one zero digit per leading zero. */
module BaseConversion {
  import opened Positional
  import opened DigitCount

  /** One zero per leading zero of `s`, then the big-endian digits in base
      `to` of the big-endian value of `s` in base `from`, where the value
      zero is written with the single digit 0. */
  function Convert(s: seq<nat>, from: nat, to: nat): (r: seq<nat>)
    requires to >= 2
    ensures AllBelow(r, to)
  {
    var ds := Magnitude(BigEndian(s, from), to);
    ReversedAllBelow(ds, to);
    Repeat<nat>(0, LeadingCount(s, 0)) + Reversed(ds)
  }

  /** `z` copies of `x` in front of a sequence that does not start with `x`
      are its whole leading run. */
  lemma {:induction false} LeadingCountOfRun<T>(x: T, z: nat, rest: seq<T>)
    requires rest == [] || rest[0] != x
    ensures LeadingCount(Repeat(x, z) + rest, x) == z
  {
    if z > 0 {
      assert (Repeat(x, z) + rest)[1..] == Repeat(x, z - 1) + rest;
      LeadingCountOfRun(x, z - 1, rest);
    }
  }

  /** A big-endian numeral has value zero exactly when all its digits are
      zero. */
  lemma BigEndianZeroIff(s: seq<nat>, base: nat)
    requires base >= 2 && AllBelow(s, base)
    ensures BigEndian(s, base) == 0 <==> LeadingCount(s, 0) == |s|
  {
    StripsLeadingZeros(s, base);
  }

  /** The shape of a conversion: the leading zeros of the input are the
      leading zeros of the output when the input has a nonzero digit, and an
      all-zero input of length n becomes n + 1 zeros. */
  lemma ConvertShape(s: seq<nat>, from: nat, to: nat)
    requires from >= 2 && to >= 2 && AllBelow(s, from)
    ensures var z := LeadingCount(s, 0);
      z < |s| ==> |Convert(s, from, to)| > z && LeadingCount(Convert(s, from, to), 0) == z
    ensures LeadingCount(s, 0) == |s| ==> Convert(s, from, to) == Repeat<nat>(0, |s| + 1)
  {
    var z := LeadingCount(s, 0);
    var n := BigEndian(s, from);
    BigEndianZeroIff(s, from);
    if z < |s| {
      var ds := ToDigits(n, to);
      ReversedAt(ds, 0);
      LeadingCountOfRun<nat>(0, z, Reversed(ds));
    } else {
      assert Reversed([0]) == [0];
      assert Repeat<nat>(0, z) + [0] == Repeat<nat>(0, z + 1);
    }
  }

  /** Converting there and back restores any digit sequence with a nonzero
      digit. */
  lemma ConvertRoundTrip(s: seq<nat>, from: nat, to: nat)
    requires from >= 2 && to >= 2 && AllBelow(s, from)
    requires LeadingCount(s, 0) < |s|
    ensures Convert(Convert(s, from, to), to, from) == s
  {
    var z := LeadingCount(s, 0);
    var n := BigEndian(s, from);
    var t := Convert(s, from, to);
    assert n > 0 by {
      BigEndianZeroIff(s, from);
    }
    assert LeadingCount(t, 0) == z by {
      ConvertShape(s, from, to);
    }
    assert BigEndian(t, to) == n by {
      var ds := ToDigits(n, to);
      assert t == Repeat<nat>(0, z) + Reversed(ds);
      BigEndianLeadingZeros(z, Reversed(ds), to);
      BigEndianIsReversedLittleEndian(Reversed(ds), to);
      ReversedInvolution(ds);
    }
    ConvertUnfold(t, to, from);
    LeadingZerosThenRest(s, from);
  }

  /** The definition of Convert, for a sequence given by its leading zeros
      and its value. */
  lemma ConvertUnfold(t: seq<nat>, from: nat, to: nat)
    requires to >= 2
    ensures Convert(t, from, to)
         == Repeat<nat>(0, LeadingCount(t, 0)) + Reversed(Magnitude(BigEndian(t, from), to))
  {
  }

  /** A digit sequence with a nonzero digit is its leading zeros followed by
      the reversed digits of its value. */
  lemma LeadingZerosThenRest(s: seq<nat>, base: nat)
    requires base >= 2 && AllBelow(s, base) && LeadingCount(s, 0) < |s|
    ensures s == Repeat<nat>(0, LeadingCount(s, 0)) + Reversed(Magnitude(BigEndian(s, base), base))
  {
    var z := LeadingCount(s, 0);
    BigEndianZeroIff(s, base);
    StripsLeadingZeros(s, base);
    assert s == Repeat<nat>(0, z) + s[z..];
  }

  /** Converting there and back turns n zeros into n + 2 zeros. */
  lemma ConvertZerosRoundTrip(s: seq<nat>, from: nat, to: nat)
    requires from >= 2 && to >= 2 && AllBelow(s, from)
    requires LeadingCount(s, 0) == |s|
    ensures Convert(Convert(s, from, to), to, from) == Repeat<nat>(0, |s| + 2)
  {
    ConvertShape(s, from, to);
    var t := Repeat<nat>(0, |s| + 1);
    LeadingCountOfRun<nat>(0, |s| + 1, []);
    assert t + [] == t;
    ConvertShape(t, to, from);
  }

  /** The length of a conversion is the number of leading zeros plus the
      number of digits of the value, which lies between from^(m - 1) and
      from^m for the m digits after the leading zeros. */
  lemma ConvertValueBounds(s: seq<nat>, from: nat, to: nat)
    requires from >= 2 && to >= 2 && AllBelow(s, from)
    ensures var z := LeadingCount(s, 0);
      |Convert(s, from, to)| == z + |Magnitude(BigEndian(s, from), to)|
    ensures var z := LeadingCount(s, 0);
      BigEndian(s, from) < Pow(from, |s| - z)
    ensures var z := LeadingCount(s, 0);
      BigEndian(s, from) == 0 <==> z == |s|
    ensures var z := LeadingCount(s, 0);
      z < |s| ==> Pow(from, |s| - z - 1) <= BigEndian(s, from)
  {
    var z := LeadingCount(s, 0);
    var r := s[z..];
    var rr := Reversed(r);
    assert s == Repeat<nat>(0, z) + r;
    assert BigEndian(s, from) == LittleEndian(rr, from) by {
      BigEndianLeadingZeros(z, r, from);
      BigEndianIsReversedLittleEndian(r, from);
    }
    assert AllBelow(rr, from) by {
      assert AllBelow(r, from);
      ReversedAllBelow(r, from);
    }
    LittleEndianBelowPow(rr, from);
    BigEndianZeroIff(s, from);
    if z < |s| {
      ReversedAt(r, |r| - 1);
      TrimmedAtLeastPow(rr, from);
    }
    ConvertUnfold(s, from, to);
  }

  /** Converting to a base at least as large never adds more than one
      digit. */
  lemma ConvertLengthAtMost(s: seq<nat>, from: nat, to: nat)
    requires 2 <= from <= to && AllBelow(s, from)
    ensures |Convert(s, from, to)| <= |s| + 1
  {
    var z := LeadingCount(s, 0);
    var n := BigEndian(s, from);
    ConvertValueBounds(s, from, to);
    if n != 0 {
      PowMonotoneBase(from, to, |s| - z);
      ToDigitsAtMost(n, to, |s| - z);
    }
  }

  /** Converting to a base at most as large never loses a digit. */
  lemma ConvertLengthAtLeast(s: seq<nat>, from: nat, to: nat)
    requires 2 <= to <= from && AllBelow(s, from)
    ensures |Convert(s, from, to)| >= |s|
  {
    var z := LeadingCount(s, 0);
    var n := BigEndian(s, from);
    ConvertValueBounds(s, from, to);
    if n != 0 {
      PowMonotoneBase(to, from, |s| - z - 1);
      ToDigitsMoreThan(n, to, |s| - z - 1);
    }
  }
}
