/** The Base58 alphabet and its reverse lookup table. */
module Alphabet {

  /** The Bitcoin Base58 alphabet: digit value i is written ALPHABET[i].  It is
      the single literal "123456789ABCDEFGHJKLMNPQRSTUVWXYZabcdefghijkmnopqrstuvwxyz",
      written here as its six runs of consecutive characters. */
  const ALPHABET: string :=
    "123456789" + "ABCDEFGH" + "JKLMN" + "PQRSTUVWXYZ" + "abcdefghijk" + "mnopqrstuvwxyz"

  /** The six character runs of the alphabet. */
  predicate IsBase58Char(c: char)
  {
    || '1' <= c <= '9'
    || 'A' <= c <= 'H'
    || 'J' <= c <= 'N'
    || 'P' <= c <= 'Z'
    || 'a' <= c <= 'k'
    || 'm' <= c <= 'z'
  }

  /** Position of an alphabet character, from the run it falls in. */
  function CharValue(c: char): nat
    requires IsBase58Char(c)
  {
    if c <= '9' then c as nat - '1' as nat
    else if c <= 'H' then c as nat - 'A' as nat + 9
    else if c <= 'N' then c as nat - 'J' as nat + 17
    else if c <= 'Z' then c as nat - 'P' as nat + 22
    else if c <= 'k' then c as nat - 'a' as nat + 33
    else c as nat - 'm' as nat + 44
  }

  /** The reverse table, character to digit value, written in closed form;
      AlphabetMapIsBuiltFromAlphabet shows it is the table that pairs each
      character of ALPHABET with its position. */
  const ALPHABET_MAP: map<char, nat> := map c | IsBase58Char(c) :: CharValue(c)

  /** Position of the first occurrence of `c` in `s`. */
  function FirstIndex(s: string, c: char): (i: nat)
    requires c in s
    ensures i < |s| && s[i] == c
    ensures forall k :: 0 <= k < i ==> s[k] != c
  {
    if s[0] == c then 0 else 1 + FirstIndex(s[1..], c)
  }

  /** The character of digit value d, from the run d falls in: the closed
      form of ALPHABET[d] (DigitCharIsAlphabet). */
  function DigitChar(d: nat): (c: char)
    requires d < 58
    ensures IsBase58Char(c) && CharValue(c) == d
  {
    if d < 9 then ('1' as int + d) as char
    else if d < 17 then ('A' as int + (d - 9)) as char
    else if d < 22 then ('J' as int + (d - 17)) as char
    else if d < 33 then ('P' as int + (d - 22)) as char
    else if d < 44 then ('a' as int + (d - 33)) as char
    else ('m' as int + (d - 44)) as char
  }

  /** CharValue and DigitChar are inverse: every alphabet character is the
      character of its own value. */
  lemma CharValueInverse(c: char)
    requires IsBase58Char(c)
    ensures CharValue(c) < 58 && DigitChar(CharValue(c)) == c
  {
  }

  /** ALPHABET_MAP inverts DigitChar, in both directions. */
  lemma MapInvertsDigitChar()
    ensures forall c :: c in ALPHABET_MAP ==> ALPHABET_MAP[c] < 58 && DigitChar(ALPHABET_MAP[c]) == c
    ensures forall d :: 0 <= d < 58 ==> DigitChar(d) in ALPHABET_MAP && ALPHABET_MAP[DigitChar(d)] == d
  {
    forall c | c in ALPHABET_MAP ensures ALPHABET_MAP[c] < 58 && DigitChar(ALPHABET_MAP[c]) == c {
      CharValueInverse(c);
    }
  }

  /** Position d of the alphabet holds DigitChar(d). */
  lemma DigitCharIsAlphabet(d: nat)
    requires d < 58
    ensures |ALPHABET| == 58 && ALPHABET[d] == DigitChar(d)
  {
    if d < 9 {
      RunDigits();
    } else if d < 17 {
      RunUpperAToH();
    } else if d < 22 {
      RunUpperJToN();
    } else if d < 33 {
      RunUpperPToZ();
    } else if d < 44 {
      RunLowerAToK();
    } else {
      RunLowerMToZ();
    }
  }

  /** The whole alphabet, position by position. */
  lemma AlphabetPositions()
    ensures |ALPHABET| == 58 && ALPHABET[0] == '1'
    ensures forall i :: 0 <= i < |ALPHABET| ==> ALPHABET[i] == DigitChar(i)
  {
    DigitCharIsAlphabet(0);
    forall i | 0 <= i < |ALPHABET| ensures ALPHABET[i] == DigitChar(i) {
      DigitCharIsAlphabet(i);
    }
  }

  /** Positions lo .. hi - 1 of the alphabet hold consecutive characters
      starting with `first`. */
  ghost predicate RunAt(lo: nat, hi: nat, first: char)
    requires hi <= |ALPHABET|
  {
    forall i :: lo <= i < hi ==> ALPHABET[i] as int == first as int + (i - lo)
  }

  lemma RunDigits()
    ensures |ALPHABET| == 58 && RunAt(0, 9, '1')
  {
  }

  lemma RunUpperAToH()
    ensures |ALPHABET| == 58 && RunAt(9, 17, 'A')
  {
  }

  lemma RunUpperJToN()
    ensures |ALPHABET| == 58 && RunAt(17, 22, 'J')
  {
  }

  lemma RunUpperPToZ()
    ensures |ALPHABET| == 58 && RunAt(22, 33, 'P')
  {
  }

  lemma RunLowerAToK()
    ensures |ALPHABET| == 58 && RunAt(33, 44, 'a')
  {
  }

  lemma RunLowerMToZ()
    ensures |ALPHABET| == 58 && RunAt(44, 58, 'm')
  {
  }

  /** The alphabet holds exactly the characters of its six runs: 58 distinct
      characters, starting with '1', without '0', 'O', 'I' and 'l'. */
  lemma AlphabetShape()
    ensures |ALPHABET| == 58 && ALPHABET[0] == '1'
    ensures forall c :: c in ALPHABET <==> IsBase58Char(c)
    ensures forall i, j :: 0 <= i < j < |ALPHABET| ==> ALPHABET[i] != ALPHABET[j]
    ensures '0' !in ALPHABET && 'O' !in ALPHABET && 'I' !in ALPHABET && 'l' !in ALPHABET
  {
    AlphabetPositions();
    forall c | IsBase58Char(c) ensures c in ALPHABET {
      CharValueInverse(c);
      assert ALPHABET[CharValue(c)] == c;
    }
  }

  /** ALPHABET_MAP is defined exactly on the alphabet and inverts it: it
      sends the character at position i to i, and every value it holds is a
      digit whose character is the key. */
  lemma AlphabetMapInverse()
    ensures forall c :: c in ALPHABET_MAP <==> c in ALPHABET
    ensures forall c :: c in ALPHABET_MAP ==> ALPHABET_MAP[c] < 58 && ALPHABET[ALPHABET_MAP[c]] == c
    ensures forall i :: 0 <= i < |ALPHABET| ==> ALPHABET[i] in ALPHABET_MAP && ALPHABET_MAP[ALPHABET[i]] == i
  {
    AlphabetPositions();
    AlphabetShape();
    MapInvertsDigitChar();
  }

  /** ALPHABET_MAP is the table that pairs each character of ALPHABET with
      its position. */
  lemma AlphabetMapIsBuiltFromAlphabet()
    ensures ALPHABET_MAP == map c | c in ALPHABET :: FirstIndex(ALPHABET, c)
  {
    var built := map c | c in ALPHABET :: FirstIndex(ALPHABET, c);
    forall c ensures c in built <==> c in ALPHABET_MAP {
      AlphabetMembership(c);
    }
    forall c | c in ALPHABET ensures ALPHABET_MAP[c] == built[c] {
      FirstIndexIsValue(c);
    }
  }

  lemma AlphabetMembership(c: char)
    ensures c in ALPHABET <==> IsBase58Char(c)
  {
    AlphabetShape();
  }

  lemma FirstIndexIsValue(c: char)
    requires c in ALPHABET
    ensures IsBase58Char(c) && FirstIndex(ALPHABET, c) == CharValue(c)
  {
    var i := FirstIndex(ALPHABET, c);
    DigitCharIsAlphabet(i);
  }

  /** '1' is the only character of value zero. */
  lemma OnlyOneIsZero(c: char)
    requires c in ALPHABET_MAP
    ensures ALPHABET_MAP[c] == 0 <==> c == '1'
  {
  }
}
