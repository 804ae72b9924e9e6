/** The verdict of the Address Validator of src/components/Tools.jsx on an
    entered (already trimmed) address: no verdict for the empty input,
    otherwise valid exactly when the address matches the Base58 character
    pattern, has 32 to 44 characters, and decodes to 32 to 64 bytes. */
module AddressValidator {
  import opened Alphabet
  import opened Positional
  import opened DigitCount
  import opened BaseConversion
  import opened Base58
  import opened Base58Properties

  datatype Option<T> = None | Some(value: T)

  /** The character class of the validator's pattern
      /^[123456789ABCDEFGHJKLMNPQRSTUVWXYZabcdefghijkmnopqrstuvwxyz]+$/,
      written here as its six runs. */
  const ADDRESS_CHARSET: string :=
    "123456789" + "ABCDEFGH" + "JKLMN" + "PQRSTUVWXYZ" + "abcdefghijk" + "mnopqrstuvwxyz"

  /** The pattern test: one or more characters, all from the class. */
  predicate MatchesPattern(address: string)
  {
    |address| >= 1 && forall k :: 0 <= k < |address| ==> address[k] in ADDRESS_CHARSET
  }

  /** The validator's result: None shows no verdict, Some(ok) shows
      "Valid" or "Invalid".  A decoding failure counts as invalid. */
  function Verdict(address: string): (r: Option<bool>)
    ensures r.None? <==> address == ""
    ensures r == Some(true) ==> MatchesPattern(address) && 32 <= |address| <= 44
  {
    if address == "" then None
    else
      var charsetOk := MatchesPattern(address);
      var lengthOk := 32 <= |address| <= 44;
      var checksumOk :=
        if charsetOk && lengthOk then
          match Decode(address)
          case Ok(bytes) => 32 <= |bytes| <= 64
          case Err(_) => false
        else false;
      Some(charsetOk && lengthOk && checksumOk)
  }

  /** The pattern's class is the codec's alphabet. */
  lemma CharsetIsAlphabet()
    ensures forall c :: c in ADDRESS_CHARSET <==> c in ALPHABET
  {
    assert ADDRESS_CHARSET == ALPHABET;
  }

  /** An address matches the pattern exactly when it is a nonempty text that
      decodes: once the pattern has matched, the decoding cannot throw, so
      the validator's catch branch is never taken. */
  lemma PatternMeansDecodable(address: string)
    ensures MatchesPattern(address) <==> address != "" && Decode(address).Ok?
  {
    CharsetIsAlphabet();
    AlphabetMapInverse();
    DecodeFailure(address);
  }

  /** The verdict without its redundant parts: a nonempty address is valid
      exactly when it has 32 to 44 characters, decodes, and decodes to at
      least 32 bytes.  The upper bound of 64 bytes never rejects, since a
      text of at most 44 characters decodes to at most 45 bytes. */
  lemma VerdictMeaning(address: string)
    requires address != ""
    ensures Verdict(address) == Some(true) <==>
              32 <= |address| <= 44 && Decode(address).Ok? && |Decode(address).value| >= 32
  {
    PatternMeansDecodable(address);
    if Decode(address).Ok? {
      DecodedLength(address);
    }
  }

  /** 2^256 <= 58^44: the largest 32-byte value has at most 44 base-58
      digits. */
  lemma KeyPowerBound()
    ensures Pow(256, 32) <= Pow(58, 44)
  {
    assert Pow(58, 7) == 2207984167552;
    assert Pow(58, 2) == 3364;
    PowAdd(58, 7, 7);
    PowAdd(58, 14, 14);
    PowAdd(58, 28, 14);
    PowAdd(58, 42, 2);
    assert Pow(256, 4) == 4294967296;
    PowAdd(256, 4, 4);
    PowAdd(256, 8, 8);
    PowAdd(256, 16, 16);
  }

  /** The same bound for every shorter tail of a key: a value of m <= 32
      bytes has at most m + 12 base-58 digits. */
  lemma TailPowerBound(m: nat)
    requires m <= 32
    ensures Pow(256, m) <= Pow(58, m + 12)
  {
    var a := Pow(58, 32 - m);
    var b := Pow(256, 32 - m);
    var c := Pow(58, m + 12);
    KeyPowerBound();
    PowAdd(256, m, 32 - m);
    PowAdd(58, m + 12, 32 - m);
    PowMonotoneBase(58, 256, 32 - m);
    PowPositive(256, 32 - m);
    MulMonotone(a, b, c);
    MulCommutes(a, c);
    MulCancel(Pow(256, m), b, c);
  }

  /** A 32-byte key encodes to 32 to 44 characters. */
  lemma KeyEncodingLength(key: seq<Byte>)
    requires |key| == 32
    ensures 32 <= |Encode(key)| <= 44
  {
    EncodedLength(key);
    EncodeIsConversion(key);
    BytesAreDigits(key);
    var z := LeadingCount<nat>(key, 0);
    var n := BigEndian(key, 256);
    ConvertValueBounds(key, 256, 58);
    if n != 0 {
      TailPowerBound(32 - z);
      ToDigitsAtMost(n, 58, 32 - z + 12);
    }
  }

  /** The address of every 32-byte public key is judged valid. */
  lemma KeyAddressesAreValid(key: seq<Byte>)
    requires |key| == 32
    ensures Verdict(Encode(key)) == Some(true)
  {
    var address := Encode(key);
    KeyEncodingLength(key);
    DecodeEncode(key);
    if LeadingCount<nat>(key, 0) == |key| {
      assert |Decode(address).value| == 34;
    }
    VerdictMeaning(address);
  }
}
