/** What the Base58 codec of src/components/Tools.jsx promises: the shape of
    its outputs, its single failure, and the round trips between encoding
    and decoding, with the exact behaviour on all-zero inputs. */
module Base58Properties {
  import opened Alphabet
  import opened Positional
  import opened BaseConversion
  import opened DigitCount
  import opened Base58

  // ---------------------------------------------------------------------
  // Characters and digit values

  lemma {:induction false} RenderAppend(a: seq<nat>, b: seq<nat>)
    requires AllBelow(a, 58) && AllBelow(b, 58)
    ensures AllBelow(a + b, 58) && Render(a + b) == Render(a) + Render(b)
  {
    assert AllBelow(a + b, 58);
    assert forall k :: 0 <= k < |a| + |b| ==> Render(a + b)[k] == (Render(a) + Render(b))[k];
  }

  /** Zero digits are written with '1'. */
  lemma RenderZeros(z: nat)
    ensures AllBelow(Repeat<nat>(0, z), 58) && Render(Repeat<nat>(0, z)) == Repeat('1', z)
  {
  }

  /** Reading back the characters of a digit sequence gives the digits. */
  lemma DigitValuesOfRender(ds: seq<nat>)
    requires AllBelow(ds, 58)
    ensures InAlphabet(Render(ds)) && DigitValues(Render(ds)) == ds
  {
    MapInvertsDigitChar();
  }

  /** Writing out the digit values of an alphabet text gives the text. */
  lemma RenderOfDigitValues(text: string)
    requires InAlphabet(text)
    ensures AllBelow(DigitValues(text), 58) && Render(DigitValues(text)) == text
  {
    MapInvertsDigitChar();
  }

  /** The characters of value zero are exactly the '1's. */
  lemma {:induction false} LeadingOnesAreLeadingZeros(text: string)
    requires InAlphabet(text)
    ensures LeadingCount(text, '1') == LeadingCount(DigitValues(text), 0)
  {
    if text != [] {
      var ds := DigitValues(text);
      assert DigitValues(text[1..]) == ds[1..];
      OnlyOneIsZero(text[0]);
      LeadingOnesAreLeadingZeros(text[1..]);
    }
  }

  /** Bytes are digits of base 256. */
  lemma BytesAreDigits(source: seq<Byte>)
    ensures AllBelow(source, 256)
  {
  }

  // ---------------------------------------------------------------------
  // Both directions are one base conversion

  /** Encoding is the conversion of the bytes from base 256 to base 58,
      written in the alphabet. */
  lemma EncodeIsConversion(source: seq<Byte>)
    requires source != []
    ensures Encode(source) == Render(Convert(source, 256, 58))
  {
    var z := LeadingCount<nat>(source, 0);
    var ds := Magnitude(BigEndian(source, 256), 58);
    ReversedAllBelow(ds, 58);
    RenderZeros(z);
    RenderAppend(Repeat<nat>(0, z), Reversed(ds));
  }

  /** Decoding an alphabet text is the conversion of its digit values from
      base 58 to base 256. */
  lemma DecodeIsConversion(text: string)
    requires text != "" && InAlphabet(text)
    ensures Decode(text).Ok? && Decode(text).value == Convert(DigitValues(text), 58, 256)
  {
    LeadingOnesAreLeadingZeros(text);
  }

  // ---------------------------------------------------------------------
  // Output shapes

  /** Every character of an encoding is a character of ALPHABET. */
  lemma EncodeUsesAlphabet(source: seq<Byte>)
    ensures forall k :: 0 <= k < |Encode(source)| ==> Encode(source)[k] in ALPHABET
  {
    assert InAlphabet(Encode(source)) by {
      EncodeShape(source);
    }
    AlphabetMapInverse();
  }

  /** The characters of an encoding are the alphabet characters of the
      converted digits. */
  lemma EncodedDigits(source: seq<Byte>)
    requires source != []
    ensures InAlphabet(Encode(source))
    ensures DigitValues(Encode(source)) == Convert(source, 256, 58)
  {
    var c := Convert(source, 256, 58);
    assert Encode(source) == Render(c) by {
      EncodeIsConversion(source);
    }
    DigitValuesOfRender(c);
  }

  /** A conversion writes at least one digit. */
  lemma ConvertNonEmpty(s: seq<nat>, from: nat, to: nat)
    requires to >= 2
    ensures |Convert(s, from, to)| >= 1
  {
    ConvertUnfold(s, from, to);
  }

  /** The leading '1's of an encoding are its leading zero digits. */
  lemma EncodedLeadingOnes(source: seq<Byte>)
    requires source != []
    ensures LeadingCount(Encode(source), '1') == LeadingCount(Convert(source, 256, 58), 0)
  {
    EncodedDigits(source);
    LeadingOnesAreLeadingZeros(Encode(source));
  }

  /** An encoding is written with ALPHABET_MAP's keys and is empty only for
      no bytes; when some byte is nonzero, its leading '1's are exactly the
      leading zero bytes and at least one other character follows them, and
      n zero bytes encode to n + 1 '1's. */
  lemma EncodeShape(source: seq<Byte>)
    ensures InAlphabet(Encode(source))
    ensures Encode(source) == "" <==> source == []
    ensures LeadingCount<nat>(source, 0) < |source| ==>
              && LeadingCount(Encode(source), '1') == LeadingCount<nat>(source, 0)
              && |Encode(source)| > LeadingCount<nat>(source, 0)
    ensures source != [] && LeadingCount<nat>(source, 0) == |source| ==>
              Encode(source) == Repeat('1', |source| + 1)
  {
    if source != [] {
      EncodedDigits(source);
      EncodeNonEmpty(source);
      if LeadingCount<nat>(source, 0) < |source| {
        EncodeLeadingZeros(source);
      } else {
        EncodeAllZeros(source);
      }
    }
  }

  /** Some bytes encode to some characters. */
  lemma EncodeNonEmpty(source: seq<Byte>)
    requires source != []
    ensures Encode(source) != ""
  {
    EncodedDigits(source);
    ConvertNonEmpty(source, 256, 58);
  }

  /** With a nonzero byte, the leading '1's are the leading zero bytes,
      and more characters follow them. */
  lemma EncodeLeadingZeros(source: seq<Byte>)
    requires LeadingCount<nat>(source, 0) < |source|
    ensures LeadingCount(Encode(source), '1') == LeadingCount<nat>(source, 0)
    ensures |Encode(source)| > LeadingCount<nat>(source, 0)
  {
    EncodedLeadingOnes(source);
    BytesLeadingZeros(source);
  }

  /** With a nonzero byte, converting to base 58 keeps the leading zeros,
      and more digits follow them. */
  lemma BytesLeadingZeros(source: seq<Byte>)
    requires LeadingCount<nat>(source, 0) < |source|
    ensures LeadingCount(Convert(source, 256, 58), 0) == LeadingCount<nat>(source, 0)
    ensures |Convert(source, 256, 58)| > LeadingCount<nat>(source, 0)
  {
    BytesAreDigits(source);
    ConvertShape(source, 256, 58);
  }

  /** n zero bytes encode to n + 1 '1's. */
  lemma EncodeAllZeros(source: seq<Byte>)
    requires source != [] && LeadingCount<nat>(source, 0) == |source|
    ensures Encode(source) == Repeat('1', |source| + 1)
  {
    assert Convert(source, 256, 58) == Repeat<nat>(0, |source| + 1) by {
      ConvertShape(source, 256, 58);
    }
    EncodeIsConversion(source);
    RenderZeros(|source| + 1);
  }

  /** A decoding is empty only for the empty text; when some character is
      not '1', its leading zero bytes are exactly the leading '1's and at
      least one other byte follows them, and n '1's decode to n + 1 zero
      bytes. */
  lemma DecodeShape(text: string)
    requires Decode(text).Ok?
    ensures Decode(text).value == [] <==> text == ""
    ensures LeadingCount(text, '1') < |text| ==>
              && LeadingCount<nat>(Decode(text).value, 0) == LeadingCount(text, '1')
              && |Decode(text).value| > LeadingCount(text, '1')
    ensures text != "" && LeadingCount(text, '1') == |text| ==>
              Decode(text).value == Repeat<nat>(0, |text| + 1)
  {
    if text != "" {
      var ds := DigitValues(text);
      RenderOfDigitValues(text);
      DecodeIsConversion(text);
      ConvertShape(ds, 58, 256);
      LeadingOnesAreLeadingZeros(text);
    }
  }

  // ---------------------------------------------------------------------
  // Failure

  /** Decoding fails exactly when some character is outside the alphabet,
      and then always with InvalidCharacter: there is no partial result. */
  lemma DecodeFailure(text: string)
    ensures Decode(text).Err? <==> exists k :: 0 <= k < |text| && text[k] !in ALPHABET
    ensures Decode(text).Err? ==> Decode(text) == Err(InvalidCharacter)
  {
    AlphabetMapInverse();
  }

  /** The look-alike characters '0', 'O', 'I' and 'l' make any text fail. */
  lemma LookalikeRejected(text: string, k: nat)
    requires k < |text| && (text[k] == '0' || text[k] == 'O' || text[k] == 'I' || text[k] == 'l')
    ensures Decode(text) == Err(InvalidCharacter)
  {
    assert text[k] !in ALPHABET_MAP;
  }

  // ---------------------------------------------------------------------
  // Round trips

  /** Decoding an encoding gives the bytes back exactly when there are no
      bytes or some byte is nonzero; n zero bytes come back as n + 2. */
  lemma DecodeEncode(source: seq<Byte>)
    ensures Decode(Encode(source)) == Ok(source) <==> source == [] || LeadingCount<nat>(source, 0) < |source|
    ensures source != [] && LeadingCount<nat>(source, 0) == |source| ==>
              Decode(Encode(source)).Ok? && Decode(Encode(source)).value == Repeat<nat>(0, |source| + 2)
  {
    if source == [] || LeadingCount<nat>(source, 0) < |source| {
      DecodeEncodeRestores(source);
    } else {
      DecodeEncodeZeros(source);
    }
  }

  /** Bytes with a nonzero byte, and no bytes, survive the round trip. */
  lemma DecodeEncodeRestores(source: seq<Byte>)
    requires source == [] || LeadingCount<nat>(source, 0) < |source|
    ensures Decode(Encode(source)) == Ok(source)
  {
    if source != [] {
      DecodeOfEncode(source);
      BytesRoundTrip(source);
    }
  }

  /** Bytes with a nonzero byte survive the conversion to base 58 and back. */
  lemma BytesRoundTrip(source: seq<Byte>)
    requires LeadingCount<nat>(source, 0) < |source|
    ensures Convert(Convert(source, 256, 58), 58, 256) == source
  {
    ConvertRoundTrip(source, 256, 58);
  }

  /** n zero bytes come back as n + 2 zero bytes. */
  lemma DecodeEncodeZeros(source: seq<Byte>)
    requires source != [] && LeadingCount<nat>(source, 0) == |source|
    ensures Decode(Encode(source)).Ok?
    ensures Decode(Encode(source)).value == Repeat<nat>(0, |source| + 2)
  {
    DecodeOfEncode(source);
    ConvertZerosRoundTrip(source, 256, 58);
  }

  /** Decoding an encoding converts the bytes to base 58 and back. */
  lemma DecodeOfEncode(source: seq<Byte>)
    requires source != []
    ensures Decode(Encode(source)).Ok?
    ensures Decode(Encode(source)).value == Convert(Convert(source, 256, 58), 58, 256)
  {
    var text := Encode(source);
    EncodedDigits(source);
    assert text != "" by {
      ConvertNonEmpty(source, 256, 58);
    }
    DecodeIsConversion(text);
  }

  /** Encoding a decoding gives the text back exactly when the text is
      empty or has a character other than '1'; n '1's come back as n + 2. */
  lemma EncodeDecode(text: string)
    requires Decode(text).Ok?
    ensures Encode(Decode(text).value) == text <==> text == "" || LeadingCount(text, '1') < |text|
    ensures text != "" && LeadingCount(text, '1') == |text| ==>
              Encode(Decode(text).value) == Repeat('1', |text| + 2)
  {
    if text != "" {
      var ds := DigitValues(text);
      var bytes := Decode(text).value;
      assert AllBelow(ds, 58) && Render(ds) == text && bytes == Convert(ds, 58, 256) by {
        RenderOfDigitValues(text);
        DecodeIsConversion(text);
      }
      assert LeadingCount(ds, 0) == LeadingCount(text, '1') by {
        LeadingOnesAreLeadingZeros(text);
      }
      assert Encode(bytes) == Render(Convert(bytes, 256, 58)) by {
        DecodeShape(text);
        EncodeIsConversion(bytes);
      }
      if LeadingCount(text, '1') < |text| {
        assert Convert(bytes, 256, 58) == ds by {
          ConvertRoundTrip(ds, 58, 256);
        }
      } else {
        assert Convert(bytes, 256, 58) == Repeat<nat>(0, |text| + 2) by {
          ConvertZerosRoundTrip(ds, 58, 256);
        }
        RenderZeros(|text| + 2);
      }
    }
  }

  // ---------------------------------------------------------------------
  // Lengths

  /** An encoding is at least as long as the bytes it encodes. */
  lemma EncodedLength(source: seq<Byte>)
    ensures |Encode(source)| >= |source|
  {
    if source != [] {
      EncodeIsConversion(source);
      BytesAreDigits(source);
      ConvertLengthAtLeast(source, 256, 58);
    }
  }

  /** A decoding has at most one byte more than the text has characters. */
  lemma DecodedLength(text: string)
    requires Decode(text).Ok?
    ensures |Decode(text).value| <= |text| + 1
  {
    if text != "" {
      DecodeIsConversion(text);
      RenderOfDigitValues(text);
      ConvertLengthAtMost(DigitValues(text), 58, 256);
    }
  }
}
