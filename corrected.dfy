/** The Base58 codec with the accumulators of base58Encode and base58Decode
    started empty instead of at [0]: a value of zero then has no digits,
    n zero bytes encode to n '1's, and both round trips hold for every
    input, as the standard Base58 convention requires. */
module CorrectedBase58 {
  import opened Positional
  import opened BaseConversion
  import opened Base58
  import opened Base58Properties

  /** Conversion whose accumulator starts empty: one zero per leading zero,
      then the shortest big-endian digits of the value. */
  function TrimmedConvert(s: seq<nat>, from: nat, to: nat): (r: seq<nat>)
    requires to >= 2
    ensures AllBelow(r, to)
  {
    var ds := ToDigits(BigEndian(s, from), to);
    ReversedAllBelow(ds, to);
    Repeat<nat>(0, LeadingCount(s, 0)) + Reversed(ds)
  }

  /** With a nonzero digit, the corrected conversion is the original one. */
  lemma TrimmedConvertAgrees(s: seq<nat>, from: nat, to: nat)
    requires from >= 2 && to >= 2 && AllBelow(s, from) && LeadingCount(s, 0) < |s|
    ensures TrimmedConvert(s, from, to) == Convert(s, from, to)
  {
    BigEndianZeroIff(s, from);
    ConvertUnfold(s, from, to);
  }

  /** An all-zero sequence converts to itself. */
  lemma TrimmedConvertZeros(s: seq<nat>, from: nat, to: nat)
    requires from >= 2 && to >= 2 && LeadingCount(s, 0) == |s|
    ensures TrimmedConvert(s, from, to) == s
  {
    assert AllBelow(s, from);
    BigEndianZeroIff(s, from);
    assert s == Repeat<nat>(0, |s|) + [];
  }

  /** The corrected conversion there and back restores every digit
      sequence. */
  lemma TrimmedRoundTrip(s: seq<nat>, from: nat, to: nat)
    requires from >= 2 && to >= 2 && AllBelow(s, from)
    ensures TrimmedConvert(TrimmedConvert(s, from, to), to, from) == s
  {
    var t := TrimmedConvert(s, from, to);
    if LeadingCount(s, 0) < |s| {
      assert t == Convert(s, from, to) by {
        TrimmedConvertAgrees(s, from, to);
      }
      assert LeadingCount(t, 0) < |t| by {
        ConvertShape(s, from, to);
      }
      TrimmedConvertAgrees(t, to, from);
      ConvertRoundTrip(s, from, to);
    } else {
      TrimmedConvertZeros(s, from, to);
      TrimmedConvertZeros(s, to, from);
    }
  }

  /** base58Encode with `digits` started as []. */
  function TrimmedEncode(source: seq<Byte>): (text: string)
  {
    Render(TrimmedConvert(source, 256, 58))
  }

  /** base58Decode with `bytes` started as []. */
  function TrimmedDecode(text: string): (r: Result<seq<Byte>>)
  {
    if !InAlphabet(text) then Err(InvalidCharacter)
    else
      var bytes := TrimmedConvert(DigitValues(text), 58, 256);
      Ok(bytes)
  }

  /** Corrected decoding inverts corrected encoding on every byte sequence. */
  lemma TrimmedDecodeEncode(source: seq<Byte>)
    ensures TrimmedDecode(TrimmedEncode(source)) == Ok(source)
  {
    var c := TrimmedConvert(source, 256, 58);
    DigitValuesOfRender(c);
    TrimmedBytesRoundTrip(source);
  }

  lemma TrimmedBytesRoundTrip(source: seq<Byte>)
    ensures TrimmedConvert(TrimmedConvert(source, 256, 58), 58, 256) == source
  {
    BytesAreDigits(source);
    TrimmedRoundTrip(source, 256, 58);
  }

  /** Corrected encoding inverts corrected decoding on every text that
      decodes. */
  lemma TrimmedEncodeDecode(text: string)
    requires TrimmedDecode(text).Ok?
    ensures TrimmedEncode(TrimmedDecode(text).value) == text
  {
    var ds := DigitValues(text);
    RenderOfDigitValues(text);
    TrimmedRoundTrip(ds, 58, 256);
  }

  /** The corrected encoding differs from base58Encode only on nonempty
      all-zero input, where it has one '1' fewer. */
  lemma TrimmedEncodeAgrees(source: seq<Byte>)
    ensures source == [] || LeadingCount<nat>(source, 0) < |source| ==> TrimmedEncode(source) == Encode(source)
    ensures source != [] && LeadingCount<nat>(source, 0) == |source| ==>
              TrimmedEncode(source) == Repeat('1', |source|) && Encode(source) == Repeat('1', |source| + 1)
  {
    if source != [] {
      BytesAreDigits(source);
      EncodeIsConversion(source);
      if LeadingCount<nat>(source, 0) < |source| {
        TrimmedConvertAgrees(source, 256, 58);
      } else {
        TrimmedConvertZeros(source, 256, 58);
        RenderZeros(|source|);
        EncodeAllZeros(source);
      }
    }
  }

  /** The corrected decoding differs from base58Decode only on nonempty
      all-'1' text, where it gives one zero byte fewer. */
  lemma TrimmedDecodeAgrees(text: string)
    ensures text == "" || LeadingCount(text, '1') < |text| || !InAlphabet(text) ==>
              TrimmedDecode(text) == Decode(text)
    ensures text != "" && InAlphabet(text) && LeadingCount(text, '1') == |text| ==>
              && TrimmedDecode(text).Ok? && TrimmedDecode(text).value == Repeat<nat>(0, |text|)
              && Decode(text).Ok? && Decode(text).value == Repeat<nat>(0, |text| + 1)
  {
    if text != "" && InAlphabet(text) {
      var ds := DigitValues(text);
      RenderOfDigitValues(text);
      LeadingOnesAreLeadingZeros(text);
      DecodeIsConversion(text);
      if LeadingCount(text, '1') < |text| {
        TrimmedConvertAgrees(ds, 58, 256);
      } else {
        TrimmedConvertZeros(ds, 58, 256);
        ConvertShape(ds, 58, 256);
      }
    }
  }

  /** Three zero bytes encode to "111" and "111" decodes to three zero
      bytes. */
  lemma TrimmedZeroVectors()
    ensures TrimmedEncode([0, 0, 0]) == "111"
    ensures TrimmedDecode("111") == Ok([0, 0, 0])
  {
    var z: seq<Byte> := [0, 0, 0];
    assert LeadingCount<nat>(z, 0) == 3;
    TrimmedEncodeAgrees(z);
    assert Repeat('1', 3) == "111";
    TrimmedDecodeEncode(z);
  }
}
