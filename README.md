# base58 codec model

A model, in Dafny, of the base58 codec of the Go package `github.com/mr-tron/base58`. It covers:

- the current converters and the alphabet type (base58.go, alphabet.go);
- the older code kept in the sub-package `base58`, marked there as frozen in time (base58/base58.go).

Base58 writes a byte string as a big-endian number in base 58, spelt with the 58 symbols of an alphabet. Each leading zero byte becomes one copy of the alphabet's first symbol (its "zero symbol").

## Modules

| module | file | models |
|---|---|---|
| `Results` | results.dfy | the `Result` type: Go's `(value, error)` pairs and panics become `Err` |
| `Numeric` | numeric.dfy | big-endian digit strings: `ValueOf`, `ToDigits` (minimal digits), `ToFixed` (a fixed width), `CountLeading`, `Pow`, and the lemmas about them |
| `Alphabets` | alphabet.dfy | alphabet.go: `Alphabet` as a value, the current `NewAlphabet` (a method filling a 128-entry array), `BTCAlphabet` and `FlickrAlphabet` |
| `Codec` | codec.dfy | what the converters compute, stated on values, and the lemmas about it |
| `Base58` | base58.dfy | base58.go: the fast encoder and decoder over arrays, plus the entry points |
| `Frozen` | frozen.dfy | base58/base58.go: the older `NewAlphabet`, the fast converters, the big-integer converters, and two defects found in them |

### What the converters compute (`Codec`)

- `Encoding(bin, a)`: one zero symbol per leading zero byte, then the symbols of the minimal base-58 digits of the number `bin`.
- `ReferenceDecoding(str, a)`: the inverse. It gives:
  - the error for the first character that is not a symbol;
  - otherwise one zero byte per leading zero symbol, followed by the minimal bytes (`big.Int.Bytes`) of the number the symbols spell.
- `Decoding(str, a)`: what the fast decoder of base58.go computes. It is `ReferenceDecoding`, except that the empty string is an error.
- `FrozenDecoding(str, a)`: what the frozen fast decoder computes. It writes the number in exactly `|str|` bytes, then keeps at most `zcount` zero bytes before the first nonzero byte, as its clamped trim does.
- `TrivialDecoding(str, a)`: what the frozen big-integer decoder computes, padding loop included.

Every converter is a method with loops. Each is proved equal to one of these functions:

- fast encoder and big-integer encoder: `Encoding`;
- current fast decoder: `Decoding`;
- frozen fast decoder: `FrozenDecoding`;
- frozen big-integer decoder: `TrivialDecoding`.

For alphabets of distinct symbols, the lemmas in `Codec` then prove:

- the round trip in both directions;
- leading zeros map one for one;
- the buffer sizes suffice;
- the two fast decoders agree with each other, and with the big-integer decoding on non-empty strings;
- the big-integer decoder gives every encoding back, so on encodings all three decoders agree (the empty string and strings of 255 bytes only are where it departs from the others).

The loops keep the source's fixed-width arithmetic: 32-bit words, 64-bit and 32-bit carries, `uint` and `byte` shift masks that wrap around. Several of the proofs show that this arithmetic never loses information:

- `Base58.NoCarryOut`: the carry that the current decoder drops out of its top word is always zero.
- `Frozen.ReadStep` and `Frozen.TopGuard`: the frozen decoder's two overflow checks can never fire.
- `Frozen.HighWord`: the mask `& 0x3f` on the carry never changes it.
- `Base58.MaskWrap`: the `uint` subtraction that ends the unpacking loop wraps to a mask of 32 or more.

Three remarks on how the model reads the code:

- In `FastBase58EncodingAlphabet` the encoder's output and its digit buffer are two slices of one allocation, `buf[:size - j + zcount]` and `buf[size + zcount:]`. They never overlap, so the model gives them two arrays.
- The frozen `FastBase58EncodingAlphabet` (base58/base58.go:80-128) is the same code, line for line, as the current one (base58.go:25-73), so `Frozen.EncodeAlphabet` calls `Base58.FastBase58EncodingAlphabet`.
- The bytes 00 01 09 encode as "15a" in the bitcoin alphabet (`Codec.EncodingVector`): 0x0109 = 265 = 4 * 58 + 33, and the digits 4 and 33 are '5' and 'a'.

## Model

| member | source | states |
|---|---|---|
| `Base58.Encode` | base58.go:8-10 | the result is the bitcoin-alphabet encoding, and a non-empty input decodes back from it |
| `Base58.EncodeAlphabet` | base58.go:14-16 | the result is the encoding in the given alphabet; with an alphabet of distinct symbols, a non-empty input decodes back from it |
| `Base58.FastBase58Encoding` | base58.go:19-21 | the bitcoin-alphabet encoding; it opens with one '1' per leading zero byte and has at most `len * 138 / 100 + 1` symbols |
| `Base58.Decode` | base58.go:76-78 | the bitcoin-alphabet decoding; anything it accepts is exactly the encoding of what it returns |
| `Base58.DecodeAlphabet` | base58.go:81-83 | the same in any alphabet `NewAlphabet` accepts |
| `Base58.FastBase58Decoding` | base58.go:86-88 | the bitcoin-alphabet decoding; a decoded value opens with one zero byte per leading '1' |
| `Base58.FastBase58EncodingAlphabet` | base58.go:25-73 | the output equals `Encoding`: zero symbols for the leading zero bytes, then the minimal base-58 digits of the number, as symbols |
| `Base58.MultiplyBytes` | base58.go:32-53 | the digit buffer has `(len - zcount) * 138 / 100 + 1` digits, each below 58, and holds the number the input bytes spell |
| `Base58.MultiplyAll` | base58.go:44-53 | the outer loop leaves the buffer holding the value of the bytes after the leading zeros |
| `Base58.PrefixStep` | base58.go:45-53 | each byte read multiplies the number so far by 256 and adds itself, and the number stays below the buffer's capacity `58^size` |
| `Base58.MultiplyAdd` | base58.go:46-52 | one pass of the carry loop turns buffer value `v` into `v * 256 + b` with digits below 58, and keeps the zero prefix above `high` |
| `Base58.MultiplyCell` | base58.go:48-50 | one step writes `(carry + 256 * tmp[j]) % 58` and carries the quotient, keeping the carry invariant |
| `Base58.MultiplyStep` | base58.go:47-51 | the carry invariant survives one step of the inner loop |
| `Base58.MultiplyDone` | base58.go:47-52 | when the inner loop stops, the buffer holds `v * 256 + b` and is zero down to the new `high` |
| `Base58.WriteDigits` | base58.go:55-72 | skipping the buffer's zero digits and writing the rest as symbols after `zcount` zero symbols spells the minimal digits of the buffer's value |
| `Base58.SymbolsAfterZeros` | base58.go:55-70 | the output assembled from the zero symbols and the nonzero-led tail of the buffer is the encoding |
| `Base58.FastBase58DecodingAlphabet` | base58.go:92-150 | the result equals `Decoding`: an error for the empty string or the first non-symbol, otherwise one zero byte per leading zero symbol, then the minimal bytes of the number |
| `Base58.ReadDigits` | base58.go:111-126 | the loop over characters stops with the error for the first non-symbol; otherwise the words hold the number all the symbols spell |
| `Base58.SymbolStep` | base58.go:115-125 | reading one more symbol keeps the words equal to the number of the symbols read |
| `Base58.AddDigit` | base58.go:119-125 | the words become `v * 58 + c`, up to a carry out of the top word |
| `Base58.AddCell` | base58.go:122-124 | one step of the word loop keeps the carry invariant, with a carry below 58 |
| `Base58.NoCarryOut` | base58.go:121-125 | the carry out of the top word, which the code drops, is zero: `(len + 3) / 4` words hold any number of `len` symbols |
| `Base58.AppendDigitFits` | base58.go:109 | a number of at most `len` base-58 digits fits in `(len + 3) / 4` 32-bit words |
| `Base58.BinuLength` | base58.go:108 | the byte buffer `2 * (len * 406 / 555 + 1)` has room for `len` bytes |
| `Base58.TopBytes` | base58.go:129-133 | the first word carries `len % 4` bytes, or 4 when that is 0, and the other words carry 4 each |
| `Base58.TopWordBound` | base58.go:128-133 | a number below `256^len` leaves at most `TopBytes(len)` bytes in its first word |
| `Base58.Unpack` | base58.go:128-142 | unpacking writes exactly `len` bytes, the number in `len` big-endian bytes, and leaves the rest of the buffer zero |
| `Base58.UnpackStep` | base58.go:135-141 | each word appends its bytes, most significant first, and leaves the mask where the next word starts |
| `Base58.UnpackWord` | base58.go:136-140 | a word of `n` bytes appends those bytes, most significant first, and the mask wraps to 32 or more |
| `Base58.UnpackCell` | base58.go:137-139 | one byte `outi[j] >> mask` is written and the mask steps down by 8 modulo 2^64 |
| `Base58.CellStep` | base58.go:137-139 | the invariant of the byte loop survives one byte |
| `Base58.MaskWrap` | base58.go:136-139 | `mask - 8` stays a byte offset until the word is done, then wraps to `2^64 - 8`, which ends the loop |
| `Base58.UnpackByte` | base58.go:137 | the byte `outi[j] >> 8k` extends the big-endian value by one byte |
| `Base58.WriteBytes` | base58.go:128-149 | the output phase returns `zcount` zero bytes followed by the number's minimal bytes |
| `Base58.Trim` | base58.go:144-149 | the search for the first nonzero byte from `zcount` on keeps exactly `zcount` zero bytes before the minimal bytes |
| `Base58.TrimFound` | base58.go:145-146 | the slice `binu[n - zcount : cnt]` is `zcount` zeros followed by the minimal bytes |
| `Base58.TrimNone` | base58.go:149 | when no byte is nonzero, the whole `binu[:cnt]` is that zero prefix |
| `Codec.DigitsOf` | base58.go:111-119 | succeeds exactly when every character is a symbol, and then gives one digit per character through the decode table; otherwise it names the first non-symbol, and the error says whether it is above 127 |
| `Codec.DigitsOfStops` | base58.go:112-117 | a non-symbol after symbols is the first one, and decides the error |
| `Codec.DigitsOfExtend` | base58.go:119 | one more symbol appends its decode-table digit |
| `Codec.DecodingEncoding` | base58.go:25-150 | with an alphabet of distinct symbols, decoding the encoding of any byte string gives it back: the big-integer decoding for every input, the fast decoding for every non-empty one, the encoding being empty only for the empty input |
| `Codec.EncodingDecoding` | base58.go:92-150 | with an alphabet of distinct symbols, whatever the decoding accepts is exactly the encoding of its result, so the decoding is injective |
| `Codec.DigitsOfSymbolString` | base58.go:68 | with distinct symbols, the decode table reads back the digits that the encode table wrote |
| `Codec.DigitsOfSymbols` | base58.go:115-119 | the digits of a string of symbols spell it back, and its zero symbols are its zero digits |
| `Codec.EncodingLeadingZeros` | base58.go:32-34 | with an alphabet of distinct symbols, the encoding opens with exactly as many zero symbols as the input has zero bytes |
| `Codec.DecodingLeadingZeros` | base58.go:100-103 | with an alphabet of distinct symbols, a decoded value opens with exactly as many zero bytes as the string has zero symbols |
| `Codec.EncodingAllZero` | base58.go:55-65 | `n` zero bytes encode as `n` zero symbols |
| `Codec.DecodingAllZero` | base58.go:144-149 | `n >= 1` zero symbols decode as `n` zero bytes |
| `Codec.EncodingEmpty` | base58.go:25-73 | the encoding is empty exactly when the input is |
| `Codec.EncodingVector` | base58.go:25-73 | the bytes 00 01 09 encode as "15a" in the bitcoin alphabet |
| `Codec.DigitBufferSuffices` | base58.go:36 | `m` bytes need at most `m * 138 / 100 + 1` base-58 digits: `256^m <= 58^(m * 138 / 100 + 1)` |
| `Codec.EncodingFitsBuffer` | base58.go:36 | the encoding fits the buffer: `zcount` zero symbols plus the number's digits are at most `len * 138 / 100 + 1` |
| `Codec.DecodeLayout` | base58.go:107-109 | a number of `len` symbols fits in `len` bytes, and its minimal bytes fit after `zcount` zero bytes |
| `Codec.NumberLayout` | base58.go:107-109 | `len` base-58 digits, `z` of them leading zeros, leave at most `len - z` minimal bytes, and none only when all are zero |
| `Codec.FixedBytesPadded` | base58.go:144-149 | a number below `256^L` written in `L` bytes is its minimal bytes padded with zeros |
| `Codec.FrozenDecodingAgrees` | base58/base58.go:250-259 | the frozen fast decoder equals the current decoding for alphabets of distinct symbols: the clamp of its trim never takes effect; on non-empty strings it also equals the big-integer decoding |
| `Codec.TrimFixed` | base58/base58.go:250-259 | the clamped trim of the number in `len` bytes keeps `zcount` zero bytes before the minimal bytes |
| `Codec.TrimPadded` | base58/base58.go:250-256 | the clamped trim of a zero-padded number keeps exactly `z` zeros when at least `z` are there |
| `Codec.TrivialDecodingAgrees` | base58/base58.go:273-288 | the big-integer decoder equals the big-integer decoding except on a non-empty string made only of byte 255, which it decodes as no bytes |
| `Codec.TrivialRoundTrip` | base58/base58.go:264-289 | with an alphabet of distinct symbols, the big-integer decoder gives back every encoded byte string, the empty one included, since an encoding never opens with 255 |
| `Codec.DecodersAgreeOnEncodings` | base58/base58_test.go:28-54 | with an alphabet of distinct symbols, on the encoding of a non-empty byte string the current fast decoder, the frozen fast decoder and the big-integer decoder all succeed and all give the input back; the frozen big-integer decoder stands in for the current package's, which is not part of this model |
| `Codec.NoPadding` | base58/base58.go:279-288 | without a leading 255, the digit loop reads the whole string |
| `Codec.PaddingThenSymbols` | base58/base58.go:276-283 | a string that opens with 255 but does not consist of it fails on its first byte |
| `Codec.PaddingOnly` | base58/base58.go:276-288 | a non-empty string of 255 bytes only is accepted as no bytes |
| `Codec.ReferenceDecodingEmpty` | base58/base58.go:264-289 | the big-integer decoding reads the empty string as no bytes |
| `Alphabets.NewAlphabet` | alphabet.go:13-36 | accepts exactly 58 distinct ASCII bytes and builds the encode table from them and the decode table from their positions; otherwise it panics on the length, then on a byte of 128 or more, then on a repeated symbol |
| `Alphabets.TableStep` | alphabet.go:24-29 | one step of the fill loop keeps each table entry at the last position of its code, and keeps `distinct` equal to `i` exactly while no symbol has repeated |
| `Alphabets.LastIndex` | alphabet.go:24-29 | the last position of a code, or -1 when it is absent |
| `Alphabets.DecodeTableInverts` | alphabet.go:19-29 | for distinct symbols the decode table inverts the encode table, and every entry other than -1 encodes back |
| `Alphabets.DistinctAppend` | alphabet.go:25-27 | appending a symbol keeps the symbols distinct exactly when it is new |
| `Alphabets.CanonicalAlphabetsValid` | alphabet.go:39-42 | the bitcoin and flickr symbol strings are 58 distinct ASCII bytes with '1' first |
| `Alphabets.InitBtcAlphabet` | alphabet.go:39 | building `BTCAlphabet` does not panic and gives an alphabet of distinct symbols |
| `Alphabets.InitFlickrAlphabet` | alphabet.go:42 | building `FlickrAlphabet` does not panic and gives an alphabet of distinct symbols |
| `Frozen.NewAlphabet` | base58/base58.go:51-64 | accepts every 58 ASCII bytes, repeated ones included, and builds the same tables; panics only on the length or a byte of 128 or more |
| `Frozen.InitBtcAlphabet` | base58/base58.go:67 | the frozen `BTCAlphabet` is the same alphabet |
| `Frozen.InitFlickrAlphabet` | base58/base58.go:70 | the frozen `FlickrAlphabet` is the same alphabet |
| `Frozen.RepeatedOneAccepted` | base58/base58.go:51-64 | the frozen constructor accepts an alphabet with '1' twice, whose decode table maps its zero symbol to 1 |
| `Frozen.ZeroSymbolMisread` | base58/base58.go:160-289 | with such an alphabet, the byte 0 encodes as the zero symbol alone; the fast decoder reads it back as the byte 1 and the big-integer decoder as 0, 1 |
| `Frozen.PaddingByteAccepted` | base58/base58.go:273-288 | the lone byte 255 decodes as no bytes in the big-integer decoder, which should reject it |
| `Frozen.EncodeAlphabet` | base58/base58.go:74-128 | the encoding, of length `zcount` plus the number of digits, at most `len * 138 / 100 + 1` |
| `Frozen.TrivialBase58EncodingAlphabet` | base58/base58.go:132-151 | the big-integer encoder gives the same output as the fast encoder, `Encoding` |
| `Frozen.DivideOut` | base58/base58.go:134-142 | repeated division by 58 writes the symbols of the number's minimal digits at the end of the buffer, and leaves the buffer before them unchanged |
| `Frozen.DivideCell` | base58/base58.go:139-141 | one turn of the loop divides `bn` by 58 and writes the remainder's symbol just before the symbols already written, leaving the buffer before it unchanged |
| `Frozen.DivideStep` | base58/base58.go:138-141 | one division writes the symbol of the remainder in front of those already written |
| `Frozen.PadZeros` | base58/base58.go:143-149 | the zero-byte loop puts one zero symbol per leading zero byte in front, and leaves the buffer before them unchanged |
| `Frozen.PadStep` | base58/base58.go:147-148 | one more zero symbol in front |
| `Frozen.DecodeAlphabet` | base58/base58.go:154-156 | the frozen decoding, which equals the current one for alphabets of distinct symbols |
| `Frozen.FastBase58DecodingAlphabet` | base58/base58.go:160-260 | the result equals `FrozenDecoding` for every alphabet the frozen constructor accepts |
| `Frozen.TopMask` | base58/base58.go:173-184 | `zmask` and `bytesleft` as computed from `len % 4` |
| `Frozen.ReadDigits` | base58/base58.go:192-215 | the character loop stops with the error for the first non-symbol; neither overflow error is ever returned, and the words hold the number the symbols spell |
| `Frozen.ReadStep` | base58/base58.go:200-214 | after each symbol the masked carry is zero and the top word is below `256^bytesleft`, so neither check at lines 208-214 fires |
| `Frozen.AddDigit` | base58/base58.go:200-206 | the words become `v * 58 + c`, with the final carry returned |
| `Frozen.AddCell` | base58/base58.go:202-206 | one step of the word loop keeps the carry invariant |
| `Frozen.HighWord` | base58/base58.go:203-204 | the carry `t >> 32` is below 58, so `& 0x3f` does not change it |
| `Frozen.TopGuard` | base58/base58.go:212-214 | `outi[0] & zmask` is zero whenever the number fits `len` bytes |
| `Frozen.TopBelow` | base58/base58.go:212 | a number of at most `len` symbols leaves its first word below `256^bytesleft` |
| `Frozen.MaskClear` | base58/base58.go:181 | a word below `256^bytesleft` has no bit under the mask `0xffffffff << (bytesleft * 8)` |
| `Frozen.Unpack` | base58/base58.go:240-248 | unpacking writes exactly `len` bytes, the number in `len` big-endian bytes |
| `Frozen.UnpackStep` | base58/base58.go:241-247 | each word appends its bytes; `bytesleft` becomes 4 after the first word |
| `Frozen.UnpackWord` | base58/base58.go:242-244 | a word of `n` bytes appends them, most significant first, and the byte mask wraps above 24 |
| `Frozen.UnpackCell` | base58/base58.go:242-243 | one byte is written and the byte-typed mask steps down by 8 modulo 256 |
| `Frozen.Trim` | base58/base58.go:250-259 | the result is the clamped trim of the first `cnt` bytes |
| `Frozen.TrivialBase58DecodingAlphabet` | base58/base58.go:264-289 | the result equals `TrivialDecoding` for every byte string |
| `Frozen.CountRun` | base58/base58.go:267-277 | the counting loops give the number of leading copies of a byte |
| `Frozen.ReadNumber` | base58/base58.go:279-287 | the big-integer loop over the first `count` characters gives the number they spell, or the error for the first non-symbol |
| `Frozen.ReadStops` | base58/base58.go:281-284 | a non-symbol stops the loop with its error |
| `Frozen.MultiplyStep` | base58/base58.go:285-286 | `n * 58 + c` is the number of one more symbol |

## Left out

- There is no I/O in the core. `main.go` and the test files are not part of this model.
- Characters are bytes (`seq<uint8>`), while both fast decoders range over runes. The readings agree:
  - A byte of 128 or more begins a rune above 127, or an invalid sequence that Go reads as U+FFFD. Either way the loop stops there with the "high-bit" error, and all earlier characters are ASCII.
  - The frozen decoder sizes its buffers by the rune count, which is at most the byte count. Its overflow guards are reached only after ASCII characters, of which there are fewer than runes, so they cannot fire there either.
- Go passes `*Alphabet`, a reference to a struct; here an alphabet is a value, since nothing changes an alphabet after `NewAlphabet`.
- Panics become `Err` values and the `fmt.Errorf` messages become `DecodeError` variants; the message texts are not modelled. The panic of the frozen big-integer decoder on a byte of 128 or more, an index past the 128-entry decode table, is `NonAsciiDigit`.
- `Base58.FastBase58DecodingAlphabet`, `Base58.DecodeAlphabet`: these require an alphabet of distinct symbols, the only kind the current `NewAlphabet` builds. What repeated symbols do is shown for the frozen code, whose constructor accepts them.
- `big.Int` is an unbounded `nat`, and `DivMod` and `Bytes` are Euclidean division and `BigBytes`.
- The re-exports at base58/base58.go:10-27 name functions of the current package. `Encode`, `FastBase58Encoding`, `Decode` and `FastBase58Decoding` are modelled in `Base58`. The current package's `TrivialBase58Encoding` and `TrivialBase58Decoding` live in a file that is not part of this model; the frozen functions of the same names are.
- Speed and allocation sizes beyond what the proofs need are not modelled. For example, `binu` in the frozen decoder is `(len + 3) * 3` bytes, and only its first `len` bytes are shown to be used.

## Findings

| source | as written | input that shows it | evidently intended | confidence | as-written member | corrected member |
|---|---|---|---|---|---|---|
| base58/base58.go:51-64 | the frozen `NewAlphabet` does not check that the 58 symbols are distinct, and its decode table maps a repeated symbol to its last position | the alphabet "11" followed by "23456789ABCDEFGHJKLMNPQRSTUVWXYZabcdefghijkmnopqrstuvwxy" (58 bytes, no "z"): the byte 0 encodes as "1", which the fast decoder reads back as the byte 1 and the big-integer decoder as 0, 1 | reject an alphabet with a repeated symbol, as alphabet.go:13-36 does | not executed | `Frozen.ZeroSymbolMisread` | `Codec.DecodingEncoding` |
| base58/base58.go:273-287 | the padding loop compares each byte with `byte(-1)`, 255, and the digit loop then reads `src[i]` for the first `len - j` indices instead of `src[j + i]` | the one-byte string 0xFF decodes to no bytes without an error | no padding at all, so every non-symbol is rejected | not executed | `Frozen.PaddingByteAccepted` | `Codec.EncodingDecoding` |
