/** The Base58 codec of src/components/Tools.jsx: the value-level meaning of
    encoding and decoding (Encode, Decode) and the two imperative routines
    base58Encode and base58Decode, each proved to compute that meaning. */
module Base58 {
  import opened Alphabet
  import opened Positional
  import opened LongMultiplication

  type Byte = b: nat | b < 256

  /** The one failure of decoding: the "Invalid Base58 character" exception. */
  datatype Error = InvalidCharacter

  datatype Result<T> = Ok(value: T) | Err(error: Error)

  /** Every character has an entry in ALPHABET_MAP. */
  predicate InAlphabet(text: string)
  {
    forall k :: 0 <= k < |text| ==> text[k] in ALPHABET_MAP
  }

  /** The alphabet characters that write a sequence of base-58 digits
      (DigitChar(d) is ALPHABET[d], by Alphabet.DigitCharIsAlphabet). */
  function Render(ds: seq<nat>): (text: string)
    requires AllBelow(ds, 58)
    ensures |text| == |ds|
    ensures forall k :: 0 <= k < |ds| ==> text[k] == DigitChar(ds[k])
  {
    if ds == [] then [] else [DigitChar(ds[0])] + Render(ds[1..])
  }

  /** The digit values that ALPHABET_MAP gives the characters of a text. */
  function DigitValues(text: string): (ds: seq<nat>)
    requires InAlphabet(text)
    ensures |ds| == |text|
    ensures forall k :: 0 <= k < |text| ==> ds[k] == ALPHABET_MAP[text[k]]
  {
    if text == [] then [] else [ALPHABET_MAP[text[0]]] + DigitValues(text[1..])
  }

  /** Extending a text by one alphabet character extends its digit values
      by that character's value. */
  lemma DigitValuesPush(text: string, i: nat)
    requires i < |text| && InAlphabet(text[..i]) && text[i] in ALPHABET_MAP
    ensures InAlphabet(text[..i + 1])
    ensures DigitValues(text[..i + 1]) == DigitValues(text[..i]) + [ALPHABET_MAP[text[i]]]
  {
    var ds := DigitValues(text[..i]) + [ALPHABET_MAP[text[i]]];
    assert forall k :: 0 <= k < i + 1 ==> text[..i + 1][k] == if k < i then text[..i][k] else text[i];
    assert forall k :: 0 <= k < i + 1 ==> DigitValues(text[..i + 1])[k] == ds[k];
  }

  /** What base58Encode returns for a byte sequence: nothing for no bytes;
      otherwise one '1' per leading zero byte, followed by the base-58
      numeral (most significant digit first) of the big-endian value of all
      the bytes, where the value zero is written with the one digit '1'. */
  function Encode(source: seq<Byte>): (text: string)
  {
    if source == [] then ""
    else
      var digits := Magnitude(BigEndian(source, 256), 58);
      ReversedAllBelow(digits, 58);
      Repeat('1', LeadingCount<nat>(source, 0)) + Render(Reversed(digits))
  }

  /** What base58Decode returns for a text: no bytes for the empty text; the
      InvalidCharacter failure when some character is not in the alphabet;
      otherwise one zero byte per leading '1', followed by the big-endian
      bytes of the base-58 value of the whole text, where the value zero is
      written with the one byte 0. */
  function Decode(text: string): (r: Result<seq<Byte>>)
  {
    if text == "" then Ok([])
    else if !InAlphabet(text) then Err(InvalidCharacter)
    else
      var bytes := Magnitude(BigEndian(DigitValues(text), 58), 256);
      ReversedAllBelow(bytes, 256);
      Ok(Repeat<nat>(0, LeadingCount(text, '1')) + Reversed(bytes))
  }

  /** base58Encode on a byte array (src/components/Tools.jsx:16-39): the
      little-endian digit array starts as [0] and absorbs the bytes one by
      one; the leading zero bytes are counted; the text is a '1' per zero
      byte and then the digits from the top down. */
  method Base58Encode(source: seq<Byte>) returns (out: string)
    ensures out == Encode(source)
  {
    if |source| == 0 {
      return "";
    }
    var digits := AbsorbBytes(source);
    var zeros := CountLeading<nat>(source, 0);
    out := "";
    for q := 0 to zeros
      invariant out == Repeat('1', q)
    {
      out := out + "1";
    }
    var text := RenderFromTop(digits);
    out := out + text;
  }

  /** The outer loop of base58Encode (src/components/Tools.jsx:19-31): the
      base-58 digits, least significant first, of the big-endian value of
      the bytes, with the value zero kept as the one digit 0. */
  method AbsorbBytes(source: seq<Byte>) returns (digits: seq<nat>)
    ensures AllBelow(digits, 58)
    ensures digits == Magnitude(BigEndian(source, 256), 58)
  {
    digits := [0];
    for i := 0 to |source|
      invariant AllBelow(digits, 58) && Canonical(digits)
      invariant LittleEndian(digits, 58) == BigEndian(source[..i], 256)
    {
      digits := MultiplyAdd(digits, 256, 58, source[i]);
      assert source[..i + 1][..i] == source[..i];
    }
    assert source[..|source|] == source;
    CanonicalIsMagnitude(digits, 58);
  }

  /** The leading-zero loops of both routines (src/components/Tools.jsx:34
      and src/components/Tools.jsx:60): how many elements at the front of
      `s` equal `x`. */
  method CountLeading<T(==)>(s: seq<T>, x: T) returns (zeros: nat)
    ensures zeros == LeadingCount(s, x)
  {
    zeros := 0;
    while zeros < |s| && s[zeros] == x
      invariant zeros <= |s|
      invariant LeadingCount(s, x) == zeros + LeadingCount(s[zeros..], x)
    {
      assert s[zeros..][1..] == s[zeros + 1..];
      zeros := zeros + 1;
    }
  }

  /** The last loop of base58Encode (src/components/Tools.jsx:37): the
      alphabet characters of the digits, from the top digit down. */
  method RenderFromTop(digits: seq<nat>) returns (text: string)
    requires AllBelow(digits, 58)
    ensures AllBelow(Reversed(digits), 58) && text == Render(Reversed(digits))
  {
    text := "";
    var p: int := |digits| - 1;
    while p >= 0
      invariant -1 <= p < |digits|
      invariant |text| == |digits| - 1 - p
      invariant forall k :: 0 <= k < |text| ==> text[k] == DigitChar(digits[|digits| - 1 - k])
    {
      DigitCharIsAlphabet(digits[p]);
      text := text + [ALPHABET[digits[p]]];
      p := p - 1;
    }
    ReversedAllBelow(digits, 58);
    forall k | 0 <= k < |digits| ensures text[k] == Render(Reversed(digits))[k] {
      ReversedAt(digits, k);
    }
  }

  /** base58Decode (src/components/Tools.jsx:41-64): the little-endian byte
      array starts as [0] and absorbs the digit values of the characters one
      by one, throwing on a character that ALPHABET_MAP lacks; then one zero
      byte per leading '1' is pushed and the array is reversed. */
  method Base58Decode(text: string) returns (r: Result<seq<Byte>>)
    ensures r == Decode(text)
  {
    if |text| == 0 {
      return Ok([]);
    }
    var valid, bytes := AbsorbCharacters(text);
    if !valid {
      return Err(InvalidCharacter);
    }
    ghost var magnitude := bytes;
    var zeros := CountLeading(text, '1');
    for q := 0 to zeros
      invariant bytes == magnitude + Repeat(0, q)
    {
      bytes := bytes + [0];
    }
    DecodedFrom(text, magnitude, zeros);
    bytes := Reversed(bytes);
    var decoded: seq<Byte> := bytes;
    return Ok(decoded);
  }

  /** The outer loop of base58Decode (src/components/Tools.jsx:43-58): either
      some character is missing from ALPHABET_MAP (the throw), or the bytes,
      least significant first, of the base-58 value of the text, with the
      value zero kept as the one byte 0. */
  method AbsorbCharacters(text: string) returns (valid: bool, bytes: seq<nat>)
    ensures valid <==> InAlphabet(text)
    ensures valid ==> bytes == Magnitude(BigEndian(DigitValues(text), 58), 256)
  {
    bytes := [0];
    for i := 0 to |text|
      invariant AllBelow(bytes, 256) && Canonical(bytes)
      invariant InAlphabet(text[..i])
      invariant LittleEndian(bytes, 256) == BigEndian(DigitValues(text[..i]), 58)
    {
      var c := text[i];
      if c !in ALPHABET_MAP {
        return false, bytes;
      }
      var value := ALPHABET_MAP[c];
      CharValueInverse(c);
      var next := MultiplyAdd(bytes, 58, 256, value);
      AbsorbCharacter(text, i, bytes, next);
      bytes := next;
    }
    assert text[..|text|] == text;
    CanonicalIsMagnitude(bytes, 256);
    return true, bytes;
  }

  /** One iteration of the character loop of Base58Decode. */
  lemma AbsorbCharacter(text: string, i: nat, bytes: seq<nat>, next: seq<nat>)
    requires i < |text| && InAlphabet(text[..i]) && text[i] in ALPHABET_MAP
    requires LittleEndian(bytes, 256) == BigEndian(DigitValues(text[..i]), 58)
    requires LittleEndian(next, 256) == 58 * LittleEndian(bytes, 256) + ALPHABET_MAP[text[i]]
    ensures InAlphabet(text[..i + 1])
    ensures LittleEndian(next, 256) == BigEndian(DigitValues(text[..i + 1]), 58)
  {
    DigitValuesPush(text, i);
    BigEndianPush(DigitValues(text[..i]), ALPHABET_MAP[text[i]], 58);
  }

  /** The closing steps of Base58Decode: the magnitude bytes, followed by one
      zero byte per leading '1', reversed, are what Decode returns. */
  lemma DecodedFrom(text: string, magnitude: seq<nat>, zeros: nat)
    requires text != "" && InAlphabet(text)
    requires magnitude == Magnitude(BigEndian(DigitValues(text), 58), 256)
    requires zeros == LeadingCount(text, '1')
    ensures AllBelow(Reversed(magnitude + Repeat<nat>(0, zeros)), 256)
    ensures Decode(text).Ok? && Decode(text).value == Reversed(magnitude + Repeat<nat>(0, zeros))
  {
    ReversedAppend<nat>(magnitude, Repeat<nat>(0, zeros));
    ReversedRepeat<nat>(0, zeros);
    ReversedAllBelow(magnitude, 256);
    assert Reversed(magnitude + Repeat<nat>(0, zeros)) == Repeat<nat>(0, zeros) + Reversed(magnitude);
  }
}
