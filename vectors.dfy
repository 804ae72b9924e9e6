/** Worked examples of the codec: the ASCII bytes of "Hello", and the
    all-zero inputs whose round trips grow. */
module Base58Vectors {
  import opened Alphabet
  import opened Positional
  import opened BaseConversion
  import opened Base58
  import opened Base58Properties

  /** The ASCII bytes of "Hello". */
  const HELLO: seq<Byte> := [0x48, 0x65, 0x6C, 0x6C, 0x6F]

  /** "Hello" read as one big-endian number. */
  lemma HelloValue()
    ensures BigEndian(HELLO, 256) == 310939249775
  {
    BigEndianPush([], 0x48, 256);
    assert BigEndian([0x48], 256) == 72 by { assert [] + [0x48] == [0x48]; }
    BigEndianPush([0x48], 0x65, 256);
    assert BigEndian([0x48, 0x65], 256) == 18533 by { assert [0x48] + [0x65] == [0x48, 0x65]; }
    BigEndianPush([0x48, 0x65], 0x6C, 256);
    assert BigEndian([0x48, 0x65, 0x6C], 256) == 4744556 by { assert [0x48, 0x65] + [0x6C] == [0x48, 0x65, 0x6C]; }
    BigEndianPush([0x48, 0x65, 0x6C], 0x6C, 256);
    assert BigEndian([0x48, 0x65, 0x6C, 0x6C], 256) == 1214606444 by { assert [0x48, 0x65, 0x6C] + [0x6C] == [0x48, 0x65, 0x6C, 0x6C]; }
    BigEndianPush([0x48, 0x65, 0x6C, 0x6C], 0x6F, 256);
    assert [0x48, 0x65, 0x6C, 0x6C] + [0x6F] == HELLO;
  }

  /** Its base-58 digits, least significant first. */
  lemma HelloDigits()
    ensures ToDigits(310939249775, 58) == [49, 57, 53, 36, 42, 9, 8]
  {
    DigitStepOf(8, 8, 0);
    DigitStepOf(473, 9, 8);
    DigitStepOf(27476, 42, 473);
    DigitStepOf(1593644, 36, 27476);
    DigitStepOf(92431405, 53, 1593644);
    DigitStepOf(5361021547, 57, 92431405);
    DigitStepOf(310939249775, 49, 5361021547);
  }

  /** One step of ToDigits on a concrete number. */
  lemma DigitStepOf(n: nat, r: nat, q: nat)
    requires n == 58 * q + r && r < 58 && n > 0
    ensures ToDigits(n, 58) == [r] + ToDigits(q, 58)
  {
    DivModOfDigit(r, q, 58);
  }

  /** The same digits, most significant first. */
  lemma HelloReversed()
    ensures Reversed<nat>([49, 57, 53, 36, 42, 9, 8]) == [8, 9, 42, 36, 53, 57, 49]
  {
    var ds: seq<nat> := [49, 57, 53, 36, 42, 9, 8];
    forall k | 0 <= k < 7 ensures Reversed(ds)[k] == [8, 9, 42, 36, 53, 57, 49][k] {
      ReversedAt(ds, k);
    }
  }

  /** "Hello" has no leading zero byte, so its conversion is its digits. */
  lemma HelloConvert()
    ensures Convert(HELLO, 256, 58) == [8, 9, 42, 36, 53, 57, 49]
  {
    ConvertUnfold(HELLO, 256, 58);
    HelloValue();
    HelloDigits();
    HelloReversed();
    assert LeadingCount<nat>(HELLO, 0) == 0;
    assert Repeat<nat>(0, 0) == [];
  }

  /** The alphabet characters of those digits. */
  lemma HelloRender()
    ensures Render([8, 9, 42, 36, 53, 57, 49]) == "9Ajdvzr"
  {
    var t := Render([8, 9, 42, 36, 53, 57, 49]);
    assert forall k :: 0 <= k < 7 ==> t[k] == "9Ajdvzr"[k];
  }

  /** base58Encode of the bytes 48 65 6C 6C 6F is "9Ajdvzr". */
  lemma HelloEncodes()
    ensures Encode(HELLO) == "9Ajdvzr"
  {
    EncodeIsConversion(HELLO);
    HelloConvert();
    HelloRender();
  }

  /** base58Decode of "9Ajdvzr" is the bytes 48 65 6C 6C 6F. */
  lemma HelloDecodes()
    ensures Decode("9Ajdvzr") == Ok(HELLO)
  {
    HelloEncodes();
    assert LeadingCount<nat>(HELLO, 0) == 0;
    DecodeEncodeRestores(HELLO);
  }

  /** Three zero bytes encode to four '1's. */
  lemma ZerosEncode()
    ensures Encode([0, 0, 0]) == "1111"
  {
    var z: seq<Byte> := [0, 0, 0];
    assert LeadingCount<nat>(z, 0) == 3;
    EncodeAllZeros(z);
    assert Repeat('1', 4) == "1111";
  }

  /** Three '1's decode to four zero bytes. */
  lemma OnesDecode()
    ensures Decode("111") == Ok([0, 0, 0, 0])
  {
    assert InAlphabet("111");
    assert LeadingCount("111", '1') == 3;
    DecodeShape("111");
    assert Repeat<nat>(0, 4) == [0, 0, 0, 0];
  }
}
