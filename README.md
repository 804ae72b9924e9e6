# Base58 codec and address validator of the blockchain tools page

This project models the only algorithmic part of the tools page in
`src/components/Tools.jsx`. It covers three pieces:

- the Base58 codec, `base58Encode` and `base58Decode`;
- the alphabet table the codec uses;
- the decision that the Address Validator component takes on an entered
  address.

Both codec routines are imperative. Each keeps a little-endian digit array
that starts as `[0]`. Per input symbol, the array is multiplied in place by
the input base and the symbol is added, with carries pushed as new top
digits. Then one zero symbol per leading zero is emitted, and the array is
read from the top down.

They are modelled as Dafny methods (`Base58.Base58Encode`,
`Base58.Base58Decode`) with their loops and invariants. Each is proved equal
to a value-level function, `Base58.Encode` or `Base58.Decode`. On nonempty
input, both functions are one generic base conversion
(`BaseConversion.Convert`), written in the alphabet. The empty input is
special-cased, as at src/components/Tools.jsx:18 and :42: `""` and `Ok([])`.
The properties are proved about those functions:

- output shapes;
- the single failure, and that it has no partial result;
- lengths;
- both round trips;
- concrete vectors.

The model keeps the code's behaviour exactly. The accumulators start at
`[0]` and are never trimmed, so a value of zero always contributes one extra
zero digit. Three zero bytes therefore encode to `"1111"` (not the
conventional `"111"`), and `"111"` decodes to four zero bytes. The round
trips hold exactly when the input has a nonzero byte (or a character other
than `'1'`), or is empty. For all-zero input, `n` zeros come back as
`n + 2`. This disagrees with the standard Base58 convention, which the
module's design evidently follows; see "Findings". `CorrectedBase58` models
the corrected routine and proves that it round-trips on every input.

For the Address Validator (lines 68-86), the model proves the following:

- The regular expression's character class is the codec's alphabet, so an
  address that passes the pattern always decodes. The `catch` branch can
  never be taken.
- A text of at most 44 characters decodes to at most 45 bytes, so the
  `<= 64` test never rejects anything.
- The verdict is therefore "32 to 44 characters, decodes, to at least 32
  bytes".
- The Base58 form of every 32-byte public key is judged valid.

Modules, in dependency order:

- `Alphabet`: `ALPHABET`, `ALPHABET_MAP`, and their closed forms by
  character runs.
- `Positional`: numerals in an arbitrary base.
- `LongMultiplication`: the shared in-place multiply-and-add loops.
- `DigitCount`: bounds on the number of digits.
- `BaseConversion`: `Convert` and its round trips.
- `Base58`: the specification functions and the two routines.
- `Base58Properties`: what the codec promises.
- `Base58Vectors`: worked examples.
- `CorrectedBase58`: the corrected codec.
- `AddressValidator`: the validator's verdict.

## Model

| member | source | states |
|---|---|---|
| Alphabet.AlphabetShape | src/components/Tools.jsx:5 | the alphabet has 58 distinct characters, starts with `'1'`, is exactly the runs 1-9, A-H, J-N, P-Z, a-k, m-z, and omits `'0'`, `'O'`, `'I'`, `'l'` |
| Alphabet.DigitCharIsAlphabet | src/components/Tools.jsx:5 | the character of digit value `d` is `ALPHABET[d]` |
| Alphabet.AlphabetPositions | src/components/Tools.jsx:5 | position `i` of the alphabet holds the character of value `i`, for every position |
| Alphabet.AlphabetMapIsBuiltFromAlphabet | src/components/Tools.jsx:6 | `ALPHABET_MAP` is the table that pairs each alphabet character with its index |
| Alphabet.AlphabetMapInverse | src/components/Tools.jsx:6 | `ALPHABET_MAP` is defined exactly on the alphabet's characters, sends `ALPHABET[i]` to `i`, and every value it holds is a digit whose character is the key |
| Alphabet.MapInvertsDigitChar | src/components/Tools.jsx:6 | looking up the character of value `d` gives `d`, and every looked-up value writes back to its key |
| LongMultiplication.MultiplyAdd | src/components/Tools.jsx:21-30 | one pass of the carry loops turns the accumulator's value `v` into `mul * v + addend`, keeps every digit below the base, and keeps the shape "at least one digit, no zero top digit unless the value is zero" |
| LongMultiplication.MultiplyDigits | src/components/Tools.jsx:22-26 | after the `for j` loop, digits plus the pending carry shifted past them equal `mul * v + addend`, the accumulator keeps its length, and the carry is below `mul` |
| LongMultiplication.PushCarry | src/components/Tools.jsx:27-30 | the `while (carry)` loop appends the carry as new top digits below the base, without changing the total value |
| Base58.Base58Encode | src/components/Tools.jsx:16-39 | the routine returns exactly `Encode(source)`: `""` for no bytes, else one `'1'` per leading zero byte followed by the base-58 digits of the bytes' value (zero written `'1'`) |
| Base58.AbsorbBytes | src/components/Tools.jsx:19-31 | the outer encode loop leaves the base-58 digits, least significant first, of the big-endian value of all the bytes |
| Base58.CountLeading | src/components/Tools.jsx:34 | the counting loop returns the number of leading elements equal to the given one |
| Base58.RenderFromTop | src/components/Tools.jsx:37 | the output loop writes the alphabet character of every digit, most significant first |
| Base58.Base58Decode | src/components/Tools.jsx:41-64 | the routine returns exactly `Decode(text)`: no bytes for `""`, `InvalidCharacter` if a character lacks a table entry, else one zero byte per leading `'1'` followed by the big-endian bytes of the text's base-58 value (zero written as one 0 byte) |
| Base58.AbsorbCharacters | src/components/Tools.jsx:43-58 | the outer decode loop reports failure exactly when some character is outside the table, and otherwise leaves the bytes, least significant first, of the text's base-58 value |
| Base58Properties.EncodeIsConversion | src/components/Tools.jsx:16-39 | encoding nonempty bytes is converting them from base 256 to base 58, leading zeros kept, written in the alphabet |
| Base58Properties.DecodeIsConversion | src/components/Tools.jsx:41-64 | decoding a nonempty alphabet text is converting its digit values from base 58 to base 256, leading zeros kept |
| Base58Properties.EncodeUsesAlphabet | src/components/Tools.jsx:37 | every character of an encoding is in `ALPHABET` |
| Base58Properties.EncodeShape | src/components/Tools.jsx:16-39 | an encoding is decodable, empty iff the input is; when some byte is nonzero, its leading `'1'`s are the leading zero bytes and at least one other character follows; `n` zero bytes give `n + 1` `'1'`s |
| Base58Properties.DecodeShape | src/components/Tools.jsx:41-64 | a decoding is empty iff the text is; when some character is not `'1'`, its leading zero bytes are the leading `'1'`s and at least one other byte follows; `n` `'1'`s give `n + 1` zero bytes |
| Base58Properties.DecodeFailure | src/components/Tools.jsx:45-47 | decoding fails iff some character is not in `ALPHABET`, and then always with `InvalidCharacter`: no partial result |
| Base58Properties.LookalikeRejected | src/components/Tools.jsx:47 | any text containing `'0'`, `'O'`, `'I'` or `'l'` fails with `InvalidCharacter` |
| Base58Properties.DecodeEncode | src/components/Tools.jsx:16-64 | decoding an encoding gives the bytes back iff they are empty or contain a nonzero byte; `n` zero bytes come back as `n + 2` |
| Base58Properties.EncodeDecode | src/components/Tools.jsx:16-64 | encoding a decoding gives the text back iff it is empty or contains a character other than `'1'`; `n` `'1'`s come back as `n + 2` |
| Base58Properties.EncodedLength | src/components/Tools.jsx:16-39 | an encoding is at least as long as its input bytes |
| Base58Properties.DecodedLength | src/components/Tools.jsx:41-64 | a decoding has at most one byte more than the text has characters |
| BaseConversion.ConvertShape | src/components/Tools.jsx:33-37 | a conversion keeps the count of leading zeros when the input has a nonzero digit, and turns `n` zeros into `n + 1` |
| BaseConversion.ConvertRoundTrip | src/components/Tools.jsx:19-31 | converting there and back restores every digit sequence that has a nonzero digit |
| BaseConversion.ConvertZerosRoundTrip | src/components/Tools.jsx:19-31 | converting `n` zeros there and back gives `n + 2` zeros |
| BaseConversion.ConvertLengthAtMost | src/components/Tools.jsx:43-58 | converting to a base at least as large adds at most one digit |
| BaseConversion.ConvertLengthAtLeast | src/components/Tools.jsx:19-31 | converting to a base at most as large never loses a digit |
| Base58Vectors.HelloEncodes | src/components/Tools.jsx:16-39 | the bytes 48 65 6C 6C 6F encode to `"9Ajdvzr"` |
| Base58Vectors.HelloDecodes | src/components/Tools.jsx:41-64 | `"9Ajdvzr"` decodes to the bytes 48 65 6C 6C 6F |
| Base58Vectors.ZerosEncode | src/components/Tools.jsx:33-37 | three zero bytes encode to `"1111"` |
| Base58Vectors.OnesDecode | src/components/Tools.jsx:59-62 | `"111"` decodes to four zero bytes |
| CorrectedBase58.TrimmedRoundTrip | src/components/Tools.jsx:19 | with the accumulator started empty, converting there and back restores every digit sequence, all-zero ones included |
| CorrectedBase58.TrimmedDecodeEncode | src/components/Tools.jsx:19 | the corrected decoding inverts the corrected encoding on every byte sequence |
| CorrectedBase58.TrimmedEncodeDecode | src/components/Tools.jsx:43 | the corrected encoding inverts the corrected decoding on every text that decodes |
| CorrectedBase58.TrimmedEncodeAgrees | src/components/Tools.jsx:19 | the corrected encoding equals `base58Encode` except on nonempty all-zero input, where it writes `n` `'1'`s instead of `n + 1` |
| CorrectedBase58.TrimmedDecodeAgrees | src/components/Tools.jsx:43 | the corrected decoding equals `base58Decode` except on nonempty all-`'1'` text, where it gives `n` zero bytes instead of `n + 1` |
| CorrectedBase58.TrimmedZeroVectors | src/components/Tools.jsx:33-37 | corrected: three zero bytes encode to `"111"` and `"111"` decodes to three zero bytes |
| AddressValidator.Verdict | src/components/Tools.jsx:68-86 | no verdict exactly for the empty address; a valid verdict implies the pattern matched and the length is 32 to 44 |
| AddressValidator.CharsetIsAlphabet | src/components/Tools.jsx:71 | the pattern's character class holds exactly the alphabet's characters |
| AddressValidator.PatternMeansDecodable | src/components/Tools.jsx:71-82 | an address matches the pattern iff it is nonempty and decodes, so the `catch` branch is unreachable |
| AddressValidator.VerdictMeaning | src/components/Tools.jsx:69-85 | a nonempty address is valid iff it has 32 to 44 characters, decodes, and decodes to at least 32 bytes (the 64-byte cap never rejects) |
| AddressValidator.KeyEncodingLength | src/components/Tools.jsx:73 | a 32-byte key encodes to 32 to 44 characters |
| AddressValidator.KeyAddressesAreValid | src/components/Tools.jsx:79 | the encoding of every 32-byte public key is judged valid |

## Left out

- The React components and their rendering, `useState` and `useMemo`
  (src/components/Tools.jsx:66-108 apart from the verdict at lines 68-86,
  and 156-279). They are user-interface wiring with no logic to prove. The
  verdict is modelled as a pure function of the address.
- `.trim()` on the entered address (src/components/Tools.jsx:101). The model
  takes the address after trimming.
- `toBytes`, `fromBytes` and the string-input branch of `base58Encode`
  (src/components/Tools.jsx:8-14 and 17). They call the host's UTF-8
  `TextEncoder`/`TextDecoder`, which are not part of this model, so
  `Base58Encode` takes bytes only.
- `LamportsConverter` (src/components/Tools.jsx:110-154). It is
  floating-point unit conversion, outside the codec.
- The clipboard `copy` helper and the `Base58Tool` form
  (src/components/Tools.jsx:156-229), and `QuickLinks`
  (src/components/Tools.jsx:231-261). They are I/O and static data.
- src/App.jsx, Hero, Navbar and Footer are not part of this model. They are
  page layout.
- JavaScript numbers are doubles, and `(x / 58) | 0`, `x & 0xff` and
  `x >> 8` are 32-bit operations. They are modelled as floor division and
  remainder on unbounded naturals. This is exact, because every
  intermediate `x` is below 58 * 256 = 14848.
- The arrays the routines push to and reverse are modelled as sequences
  that the methods reassign. `bytes.reverse()` and the final `Uint8Array`
  are modelled by the `Reversed` function and a `seq<Byte>` result.
- JavaScript strings are sequences of UTF-16 code units, while a Dafny
  `string` is a sequence of Unicode scalar values. They differ only for
  characters outside the Basic Multilingual Plane. None of those is in the
  alphabet or the pattern, so decoding fails and the verdict is false in
  both readings.
- The thrown `Error("Invalid Base58 character")` is modelled as the
  `Err(InvalidCharacter)` result.
- AddressValidator.Verdict: its own contract states only the easy
  consequences. The full meaning is stated by
  `AddressValidator.VerdictMeaning` and `AddressValidator.PatternMeansDecodable`.

## Findings

| source | as written | input that shows it | evidently intended | confidence | as-written member | corrected member |
|---|---|---|---|---|---|---|
| src/components/Tools.jsx:19 | both accumulators start as `[0]` and are never trimmed, so a zero value adds one zero digit on top of the leading-zero prefix | bytes `[0, 0, 0]` encode to `"1111"`, and `"111"` decodes to `[0, 0, 0, 0]`; neither round trip holds on all-zero input | standard Base58: `n` zero bytes encode to `n` `'1'`s, and decoding inverts encoding on every input (accumulators started empty) | high (proved; not executed) | Base58Properties.DecodeEncode | CorrectedBase58.TrimmedDecodeEncode |

The routines keep the code's behaviour throughout the model, including in
the Address Validator. The corrected codec `CorrectedBase58` stands beside
them. Its encoding differs only on nonempty all-zero input
(`CorrectedBase58.TrimmedEncodeAgrees`). Its decoding differs only on
nonempty all-`'1'` text (`CorrectedBase58.TrimmedDecodeAgrees`).
