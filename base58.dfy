/** base58.go: the fast converters and the entry points that call them with the
    bitcoin alphabet or a given one. */
module Base58 {

  import opened Numeric
  import opened Results
  import opened Alphabets
  import opened Codec

  /** `Encode`: the bitcoin-alphabet encoding, which decodes back to the input
      whenever the input is not empty. */
  method Encode(bin: seq<uint8>) returns (s: seq<uint8>)
    ensures s == Encoding(bin, BtcAlphabet)
    ensures bin != [] ==> Decoding(s, BtcAlphabet) == Ok(bin)
  {
    CanonicalAlphabetsValid();
    s := FastBase58EncodingAlphabet(bin, BtcAlphabet);
    DecodingEncoding(bin, BtcAlphabet);
  }

  /** `EncodeAlphabet`: the encoding in the given alphabet; with an alphabet
      that `NewAlphabet` accepts it decodes back to any non-empty input. */
  method EncodeAlphabet(bin: seq<uint8>, alphabet: Alphabet) returns (s: seq<uint8>)
    requires |alphabet.encode| == 58
    ensures s == Encoding(bin, alphabet)
    ensures alphabet.Valid() && bin != [] ==> Decoding(s, alphabet) == Ok(bin)
  {
    s := FastBase58EncodingAlphabet(bin, alphabet);
    if alphabet.Valid() {
      DecodingEncoding(bin, alphabet);
    }
  }

  /** `FastBase58Encoding`: the same call as `Encode`; its output opens with one
      '1' per leading zero byte and has at most 138/100 symbols per byte, plus one. */
  method FastBase58Encoding(bin: seq<uint8>) returns (s: seq<uint8>)
    ensures s == Encoding(bin, BtcAlphabet)
    ensures CountLeading(s, '1' as uint8) == CountLeading(bin, 0)
    ensures |s| <= |bin| * 138 / 100 + 1
  {
    CanonicalAlphabetsValid();
    s := FastBase58EncodingAlphabet(bin, BtcAlphabet);
    EncodingLeadingZeros(bin, BtcAlphabet);
    EncodingFitsBuffer(bin);
  }

  /** `Decode`: the bitcoin-alphabet decoding; whatever it accepts is the
      encoding of what it returns. */
  method Decode(str: seq<uint8>) returns (r: Result<seq<uint8>, DecodeError>)
    ensures r == Decoding(str, BtcAlphabet)
    ensures r.Ok? ==> Encoding(r.value, BtcAlphabet) == str
  {
    CanonicalAlphabetsValid();
    r := FastBase58DecodingAlphabet(str, BtcAlphabet);
    if r.Ok? {
      EncodingDecoding(str, BtcAlphabet, r.value);
    }
  }

  /** `DecodeAlphabet`: the decoding in an alphabet that `NewAlphabet` accepted;
      whatever it accepts is the encoding of what it returns. */
  method DecodeAlphabet(str: seq<uint8>, alphabet: Alphabet) returns (r: Result<seq<uint8>, DecodeError>)
    requires alphabet.Valid()
    ensures r == Decoding(str, alphabet)
    ensures r.Ok? ==> Encoding(r.value, alphabet) == str
  {
    r := FastBase58DecodingAlphabet(str, alphabet);
    if r.Ok? {
      EncodingDecoding(str, alphabet, r.value);
    }
  }

  /** `FastBase58Decoding`: the same call as `Decode`; a decoded value opens
      with one zero byte per leading '1'. */
  method FastBase58Decoding(str: seq<uint8>) returns (r: Result<seq<uint8>, DecodeError>)
    ensures r == Decoding(str, BtcAlphabet)
    ensures r.Ok? ==> CountLeading(r.value, 0) == CountLeading(str, '1' as uint8)
  {
    CanonicalAlphabetsValid();
    r := FastBase58DecodingAlphabet(str, BtcAlphabet);
    if r.Ok? {
      DecodingLeadingZeros(str, BtcAlphabet, r.value);
    }
  }

  /** `FastBase58EncodingAlphabet`. The bytes after the leading zeros are
      multiplied into a base-58 digit buffer `tmp`, one byte at a time from the
      most significant; the buffer's leading zeros are then skipped and the rest
      written out as symbols after one zero symbol per leading zero byte. */
  method FastBase58EncodingAlphabet(bin: seq<uint8>, alphabet: Alphabet) returns (s: seq<uint8>)
    requires |alphabet.encode| == 58
    ensures s == Encoding(bin, alphabet)
  {
    var zero := alphabet.encode[0];
    var binsz := |bin|;

    var zcount := 0;
    while zcount < binsz && bin[zcount] == 0
      invariant zcount <= binsz
      invariant forall k :: 0 <= k < zcount ==> bin[k] == 0
    {
      zcount := zcount + 1;
    }
    CountLeadingUnique(bin, 0, zcount);
    var tmp := MultiplyBytes(bin, zcount);
    s := WriteDigits(tmp, zcount, alphabet);
  }

  /** The encoder's outer loop: a buffer of `(|bin| - zcount) * 138 / 100 + 1`
      base-58 digits, enough for the bytes after the leading zeros, into which
      those bytes are multiplied one at a time from the most significant. */
  method MultiplyBytes(bin: seq<uint8>, zcount: nat) returns (tmp: array<uint8>)
    requires zcount <= |bin| && forall k :: 0 <= k < zcount ==> bin[k] == 0
    ensures fresh(tmp) && tmp.Length == (|bin| - zcount) * 138 / 100 + 1
    ensures IsDigits(tmp[..], 58) && ValueOf(tmp[..], 58) == ValueOf(bin, 256)
  {
    var binsz := |bin|;
    var size := (binsz - zcount) * 138 / 100 + 1;
    tmp := MakeBytes(size);
    assert Pow(256, binsz - zcount) <= Pow(58, size) by {
      DigitBufferSuffices(binsz - zcount);
    }

    MultiplyAll(bin, zcount, tmp);
    assert ValueOf(tmp[..], 58) == ValueOf(bin, 256) by {
      ValueOfDropZeros(bin, zcount, 256);
    }
  }

  /** The loop of `MultiplyBytes`: each byte after the leading zeros is
      multiplied into the zeroed buffer `tmp`, whose capacity suffices. */
  method MultiplyAll(bin: seq<uint8>, zcount: nat, tmp: array<uint8>)
    requires zcount <= |bin| && 0 < tmp.Length && tmp[..] == Repeat(0, tmp.Length)
    requires Pow(256, |bin| - zcount) <= Pow(58, tmp.Length)
    modifies tmp
    ensures IsDigits(tmp[..], 58) && ValueOf(tmp[..], 58) == ValueOf(bin[zcount..], 256)
  {
    assert ValueOf(tmp[..], 58) == 0 by {
      ValueOfZeros(tmp[..], 58);
    }
    var high := tmp.Length - 1;
    for i := zcount to |bin|
      invariant -1 <= high < tmp.Length
      invariant forall k :: 0 <= k <= high ==> tmp[k] == 0
      invariant IsDigits(tmp[..], 58)
      invariant ValueOf(tmp[..], 58) == ValueOf(bin[zcount..i], 256)
    {
      PrefixStep(bin, zcount, i, tmp.Length);
      high := MultiplyAdd(tmp, high, bin[i]);
    }
    assert bin[zcount..|bin|] == bin[zcount..];
  }

  /** The number the bytes `bin[z..i]` denote grows by one byte per step of the
      encoder's outer loop and stays below the buffer's capacity. */
  lemma PrefixStep(bin: seq<uint8>, z: nat, i: nat, size: nat)
    requires z <= i < |bin| && Pow(256, |bin| - z) <= Pow(58, size)
    ensures ValueOf(bin[z..i], 256) * 256 + bin[i] == ValueOf(bin[z..i + 1], 256)
    ensures ValueOf(bin[z..i + 1], 256) < Pow(58, size)
  {
    assert bin[z..i + 1][..i - z] == bin[z..i];
    ValueOfBound(bin[z..i + 1], 256);
    PowMonotone(256, i + 1 - z, |bin| - z);
  }

  /** Go's `make([]byte, n)`: a fresh buffer of `n` zero bytes. */
  method MakeBytes(n: nat) returns (a: array<uint8>)
    ensures fresh(a) && a[..] == Repeat(0, n)
  {
    a := new uint8[n](_ => 0);
    assert a[..] == Repeat(0, n);
  }

  /** One pass of the encoder's inner loop: the base-58 number in `tmp`, whose
      cells up to `high` are zero, becomes itself times 256 plus `b`. The loop
      stops once it is past `high` with no carry left, and the cells up to the
      `high'` it returns are still zero. The carry never runs off the top
      because the result is below `Pow(58, tmp.Length)`. */
  method MultiplyAdd(tmp: array<uint8>, high: int, b: uint8) returns (high': int)
    requires -1 <= high < tmp.Length
    requires forall k :: 0 <= k <= high ==> tmp[k] == 0
    requires IsDigits(tmp[..], 58)
    requires ValueOf(tmp[..], 58) * 256 + b < Pow(58, tmp.Length)
    modifies tmp
    ensures -1 <= high' <= high
    ensures forall k :: 0 <= k <= high' ==> tmp[k] == 0
    ensures IsDigits(tmp[..], 58)
    ensures ValueOf(tmp[..], 58) == ValueOf(old(tmp[..]), 58) * 256 + b
  {
    ghost var before: seq<nat> := tmp[..];
    var j := tmp.Length - 1;
    var carry: uint32 := b;
    MultiplyStart(before, b as nat);
    while j > high || carry != 0
      invariant MultiplyState(tmp[..], before, j, carry as nat, b as nat)
      decreases j + 1
    {
      carry := MultiplyCell(tmp, j, carry, before, b as nat);
      j := j - 1;
    }
    MultiplyDone(tmp[..], before, j, high, b as nat);
    high' := j;
  }

  /** The invariant of `MultiplyAdd`'s inner loop: the carry loop of
      `CarryState` multiplying by 256 in base 58, with a carry below 256 that
      is gone once the loop is past the top cell. */
  ghost predicate MultiplyState(cur: seq<nat>, before: seq<nat>, j: int, carry: nat, b: nat)
  {
    CarryState(cur, before, j, carry, 58, 256, b) && carry < 256 && (j == -1 ==> carry == 0)
  }

  /** Before any cell is rewritten the carry is `b` itself. */
  lemma MultiplyStart(before: seq<nat>, b: nat)
    requires IsDigits(before, 58) && b < 256
    requires ValueOf(before, 58) * 256 + b < Pow(58, |before|)
    ensures MultiplyState(before, before, |before| - 1, b, b)
  {
    CarryStart(before, 58, 256, b);
    if |before| == 0 {
      CarryVanishes(0, b, 1, b);
    }
  }

  /** When the inner loop stops, the cells it did not reach are zero in both
      the old and the new digits, so the invariant speaks of the whole number. */
  lemma MultiplyDone(cur: seq<nat>, before: seq<nat>, j: int, high: int, b: nat)
    requires MultiplyState(cur, before, j, 0, b) && j <= high < |before|
    requires forall k :: 0 <= k <= high ==> before[k] == 0
    ensures forall k :: 0 <= k <= j ==> cur[k] == 0
    ensures ValueOf(cur, 58) == ValueOf(before, 58) * 256 + b
  {
    ValueOfDropZeros(cur, j + 1, 58);
    ValueOfDropZeros(before, j + 1, 58);
  }

  /** The body of `MultiplyAdd`'s inner loop: cell `j` times 256 plus the
      carry is split into a new base-58 digit and the next carry, which keeps
      the loop's invariant one cell further up. */
  method MultiplyCell(tmp: array<uint8>, j: int, carry: uint32, ghost before: seq<nat>, ghost b: nat)
      returns (carry': uint32)
    requires MultiplyState(tmp[..], before, j, carry as nat, b) && j >= 0
    requires ValueOf(before, 58) * 256 + b < Pow(58, tmp.Length)
    modifies tmp
    ensures tmp[..] == old(tmp[..])[j := ((carry as nat + 256 * old(tmp[j]) as nat) % 58) as uint8]
    ensures carry' as nat == (carry as nat + 256 * old(tmp[j]) as nat) / 58
    ensures MultiplyState(tmp[..], before, j - 1, carry' as nat, b)
  {
    ghost var t := tmp[..];
    carry' := carry + 256 * (tmp[j] as uint32);
    tmp[j] := carry' % 58;
    carry' := carry' / 58;
    MultiplyStep(t, tmp[..], before, j, carry as nat, b, carry' as nat);
  }

  /** One step of `MultiplyAdd`'s inner loop on the digits `t`, which become
      `u` once cell `j` is rewritten: the invariant moves one cell up, and at
      the top cell no carry is left because the product fits in the buffer. */
  lemma MultiplyStep(t: seq<nat>, u: seq<nat>, before: seq<nat>, j: nat, c: nat, b: nat, carry: nat)
    requires MultiplyState(t, before, j, c, b)
    requires ValueOf(before, 58) * 256 + b < Pow(58, |t|)
    requires u == t[j := (c + 256 * t[j]) % 58] && carry == (c + 256 * t[j]) / 58
    ensures MultiplyState(u, before, j - 1, carry, b)
  {
    CarryCell(t, u, before, j, c, 58, 256, b, carry);
    assert carry < 256 by {
      assert c + 256 * t[j] < 256 * 58;
    }
    if j == 0 {
      CarryFinish(u, before, carry, 58, 256, b);
      CarryVanishes(ValueOf(u, 58), carry, Pow(58, |u|), ValueOf(before, 58) * 256 + b);
    }
  }

  /** The output phase of the encoder: skip the leading zero digits of `tmp`,
      then write `zcount` zero symbols and the symbols of the remaining digits. */
  method WriteDigits(tmp: array<uint8>, zcount: nat, alphabet: Alphabet) returns (s: seq<uint8>)
    requires |alphabet.encode| == 58 && IsDigits(tmp[..], 58)
    ensures s == Repeat(alphabet.encode[0], zcount) + Symbols(ToDigits(ValueOf(tmp[..], 58), 58), alphabet)
  {
    var size := tmp.Length;
    var j := 0;
    while j < size && tmp[j] == 0
      invariant 0 <= j <= size
      invariant forall k :: 0 <= k < j ==> tmp[k] == 0
    {
      j := j + 1;
    }
    ghost var j0 := j;

    var b58 := new uint8[size - j + zcount];
    for i := 0 to zcount
      invariant forall k :: 0 <= k < i ==> b58[k] == alphabet.encode[0]
    {
      b58[i] := alphabet.encode[0];
    }
    var i := zcount;
    while j < size
      invariant j0 <= j <= size && i == zcount + j - j0
      invariant forall k :: 0 <= k < zcount ==> b58[k] == alphabet.encode[0]
      invariant forall k :: zcount <= k < i ==> b58[k] == alphabet.encode[tmp[j0 + k - zcount]]
    {
      b58[i] := alphabet.encode[tmp[j]];
      j := j + 1;
      i := i + 1;
    }
    s := b58[..];
    SymbolsAfterZeros(tmp[..], j0, zcount, alphabet, s);
  }

  /** What the output phase writes, stated on the digit string `t`. */
  lemma SymbolsAfterZeros(t: seq<nat>, j0: nat, zcount: nat, alphabet: Alphabet, s: seq<uint8>)
    requires |alphabet.encode| == 58 && IsDigits(t, 58)
    requires j0 <= |t| && (forall k :: 0 <= k < j0 ==> t[k] == 0) && (j0 < |t| ==> t[j0] != 0)
    requires |s| == zcount + |t| - j0
    requires forall k :: 0 <= k < zcount ==> s[k] == alphabet.encode[0]
    requires forall k :: zcount <= k < |s| ==> s[k] == alphabet.encode[t[j0 + k - zcount]]
    ensures s == Repeat(alphabet.encode[0], zcount) + Symbols(ToDigits(ValueOf(t, 58), 58), alphabet)
  {
    var ds := t[j0..];
    assert ToDigits(ValueOf(t, 58), 58) == ds by {
      CountLeadingUnique(t, 0, j0);
      StripLeadingZeros(t, 58);
    }
    var sym := Symbols(ds, alphabet);
    assert s[zcount..] == sym by {
      assert forall k :: 0 <= k < |sym| ==> sym[k] == s[zcount + k];
    }
    assert s[..zcount] == Repeat(alphabet.encode[0], zcount);
    assert s == s[..zcount] + s[zcount..];
  }

  // ---------------------------------------------------------------------------
  // Decoding

  /** `FastBase58DecodingAlphabet`. The symbols are multiplied into an array of
      32-bit words, most significant first; the words are then unpacked into
      exactly one byte per character, and the result keeps `zcount` zero bytes
      before the first nonzero one. Go ranges over the runes of the string; the
      model reads bytes, which meet the first character above 127 at the same
      place and report the same error. */
  method FastBase58DecodingAlphabet(str: seq<uint8>, alphabet: Alphabet) returns (r: Result<seq<uint8>, DecodeError>)
    requires alphabet.Valid()
    ensures r == Decoding(str, alphabet)
  {
    if |str| == 0 {
      return Err(EmptyInput);
    }
    var zero := alphabet.encode[0];
    var b58sz := |str|;

    var zcount := 0;
    while zcount < b58sz && str[zcount] == zero
      invariant zcount <= b58sz
      invariant forall k :: 0 <= k < zcount ==> str[k] == zero
    {
      zcount := zcount + 1;
    }
    CountLeadingUnique(str, zero, zcount);

    var binu := MakeBytes(2 * (b58sz * 406 / 555 + 1));
    BinuLength(b58sz);
    var outi := MakeWords((b58sz + 3) / 4);
    var read := ReadDigits(str, alphabet, outi);
    if read.Err? {
      DecodingsErr(str, alphabet);
      return Err(read.error);
    }

    ghost var ds := DigitsOf(str, alphabet).value;
    ghost var v := ValueOf(ds, 58);
    ghost var D := BigBytes(v);
    DecodeLayout(str, alphabet, v, D, zcount);
    FixedBytesSplit(v, b58sz, D);
    var bin := WriteBytes(outi, binu, b58sz, zcount, v, D);
    DecodingsOk(str, alphabet, ds, v, zcount, D);
    r := Ok(bin);
  }

  /** The output phase of the decoder: the words are unpacked into one byte
      per character and trimmed to `zcount` zero bytes before the number's
      minimal bytes. */
  method WriteBytes(outi: array<uint32>, binu: array<uint8>, b58sz: nat, zcount: nat, ghost v: nat, ghost D: seq<uint8>)
      returns (bin: seq<uint8>)
    requires 1 <= b58sz <= binu.Length && outi.Length == (b58sz + 3) / 4
    requires binu[..] == Repeat(0, binu.Length)
    requires ValueOf(outi[..], WordRadix) == v < Pow(256, b58sz)
    requires D == BigBytes(v) && zcount + |D| <= b58sz && (D == [] ==> zcount == b58sz)
    requires FixedBytes(v, b58sz) == Repeat(0, b58sz - |D|) + D
    modifies binu
    ensures bin == Repeat(0, zcount) + D
  {
    var cnt := Unpack(outi, binu, b58sz);
    bin := Trim(binu, zcount, cnt, D);
  }

  /** The decoder's loop over the characters of `str`: each one above 127 or
      outside the alphabet stops the decoder with its error; each symbol's
      digit is multiplied into the words `outi`, which then hold the number the
      symbols spell. */
  method ReadDigits(str: seq<uint8>, alphabet: Alphabet, outi: array<uint32>) returns (read: Result<(), DecodeError>)
    requires alphabet.Shaped() && outi.Length == (|str| + 3) / 4 && outi[..] == Repeat(0, outi.Length)
    modifies outi
    ensures read.Err? ==> DigitsOf(str, alphabet) == Err(read.error)
    ensures read.Ok? ==> DigitsOf(str, alphabet).Ok?
    ensures read.Ok? ==> ValueOf(outi[..], WordRadix) == ValueOf(DigitsOf(str, alphabet).value, 58)
  {
    assert ValueOf(outi[..], WordRadix) == 0 by {
      ValueOfZeros(outi[..], WordRadix);
    }
    assert str[..0] == [];
    for i := 0 to |str|
      invariant DigitsOf(str[..i], alphabet).Ok?
      invariant ValueOf(outi[..], WordRadix) == ValueOf(DigitsOf(str[..i], alphabet).value, 58)
    {
      var c := str[i];
      if c > 127 {
        DigitsOfStops(str, i, alphabet);
        return Err(NonAsciiDigit);
      }
      if alphabet.decode[c] == -1 {
        DigitsOfStops(str, i, alphabet);
        return Err(InvalidDigit);
      }
      ghost var before := outi[..];
      var digit := alphabet.decode[c] as uint64;
      ghost var dropped := AddDigit(outi, digit);
      SymbolStep(str, i, alphabet, before, outi[..], dropped);
    }
    assert str[..|str|] == str;
    read := Ok(());
  }

  /** Go's `make([]uint32, n)`: a fresh array of `n` zero words. */
  method MakeWords(n: nat) returns (a: array<uint32>)
    ensures fresh(a) && a[..] == Repeat(0, n)
  {
    a := new uint32[n](_ => 0);
    assert a[..] == Repeat(0, n);
  }

  /** The byte buffer, `2 * (n * 406 / 555 + 1)` long, holds at least one byte
      per character. */
  lemma BinuLength(n: nat)
    ensures n <= 2 * (n * 406 / 555 + 1)
  {
    var q := n * 406 / 555;
    assert n * 406 < (q + 1) * 555;
  }

  /** The decoder's inner loop over the words, from the least significant up:
      each word times 58 plus the carry `c` is split into its low 32 bits
      (`t & 0xffffffff`), which stay, and its high bits (`t >> 32`), the next
      carry. What is carried out of the top word, `dropped`, is lost: the
      words end up holding the old number times 58 plus the digit, less
      `dropped` times `Pow(2^32, outi.Length)`. */
  method AddDigit(outi: array<uint32>, digit: uint64) returns (ghost dropped: nat)
    requires digit < 58
    modifies outi
    ensures ValueOf(outi[..], WordRadix) + dropped * Pow(WordRadix, outi.Length)
         == ValueOf(old(outi[..]), WordRadix) * 58 + digit
  {
    ghost var before: seq<nat> := outi[..];
    var c := digit;
    var j := outi.Length - 1;
    AddStart(before, digit);
    while j >= 0
      invariant CarryState(outi[..], before, j, c as nat, WordRadix, 58, digit as nat) && c < 58
      decreases j + 1
    {
      c := AddCell(outi, j, c, before, digit);
      j := j - 1;
    }
    CarryFinish(outi[..], before, c, WordRadix, 58, digit);
    dropped := c;
  }

  lemma AddStart(before: seq<nat>, digit: nat)
    requires forall k :: 0 <= k < |before| ==> before[k] < WordRadix
    ensures CarryState(before, before, |before| - 1, digit, WordRadix, 58, digit)
  {
    CarryStart(before, WordRadix, 58, digit);
  }

  /** One word of `AddDigit`: `t = outi[j] * 58 + c`, the word keeps the low 32
      bits of `t` and the carry becomes its high bits. */
  method AddCell(outi: array<uint32>, j: int, c: uint64, ghost before: seq<nat>, ghost digit: nat) returns (c': uint64)
    requires 0 <= j && CarryState(outi[..], before, j, c as nat, WordRadix, 58, digit) && c < 58
    modifies outi
    ensures CarryState(outi[..], before, j - 1, c' as nat, WordRadix, 58, digit) && c' < 58
  {
    ghost var words: seq<nat> := outi[..];
    var t: uint64 := outi[j] as uint64 * 58 + c;
    c' := t / WordRadix;
    outi[j] := (t % WordRadix) as uint32;
    assert t == c + 58 * words[j];
    CarryCell(words, outi[..], before, j, c, WordRadix, 58, digit, c');
  }

  /** One symbol read: the words hold the number of one more symbol. */
  lemma SymbolStep(str: seq<uint8>, i: nat, a: Alphabet, before: seq<nat>, after: seq<nat>, dropped: nat)
    requires a.Shaped() && i < |str| && IsSymbol(str[i], a) && DigitsOf(str[..i], a).Ok?
    requires |before| == (|str| + 3) / 4
    requires ValueOf(before, WordRadix) == ValueOf(DigitsOf(str[..i], a).value, 58)
    requires ValueOf(after, WordRadix) + dropped * Pow(WordRadix, |before|)
          == ValueOf(before, WordRadix) * 58 + a.decode[str[i]]
    ensures DigitsOf(str[..i + 1], a).Ok?
    ensures ValueOf(after, WordRadix) == ValueOf(DigitsOf(str[..i + 1], a).value, 58)
  {
    var ds := DigitsOf(str[..i], a).value;
    DigitsOfExtend(str, i, a);
    NoCarryOut(ds, a.decode[str[i]], |str|, before, after, dropped);
  }

  /** One character of the decoder's outer loop: the words held the number
      the digits `ds` read so far spell, and `AddDigit` made them that number
      times 58 plus the new digit `d`, less what it carried out of the top.
      Nothing was carried out, because that number has at most `n` digits and
      `Pow(58, n) <= Pow(256, n) <= Pow(2^32, (n + 3) / 4)`. */
  lemma NoCarryOut(ds: seq<nat>, d: nat, n: nat, before: seq<nat>, after: seq<nat>, dropped: nat)
    requires IsDigits(ds, 58) && d < 58 && |ds| < n && |before| == (n + 3) / 4
    requires ValueOf(before, WordRadix) == ValueOf(ds, 58)
    requires ValueOf(after, WordRadix) + dropped * Pow(WordRadix, |before|) == ValueOf(before, WordRadix) * 58 + d
    ensures dropped == 0
    ensures ValueOf(after, WordRadix) == ValueOf(ds + [d], 58)
  {
    AppendDigitFits(ds, d, n, |before|);
    DroppedZero(ValueOf(after, WordRadix), dropped, Pow(WordRadix, |before|), ValueOf(ds, 58), ValueOf(ds + [d], 58), d);
  }

  lemma DroppedZero(rest: nat, dropped: nat, P: nat, v: nat, x: nat, d: nat)
    requires x == v * 58 + d && x < P
    requires rest + dropped * P == v * 58 + d
    ensures dropped == 0 && rest == x
  {
    CarryVanishes(rest, dropped, P, x);
  }

  /** A digit appended to fewer than `n` base-58 digits: the number is
      multiplied by 58 and grows by the digit, and `(n + 3) / 4` words hold it. */
  lemma AppendDigitFits(ds: seq<nat>, d: nat, n: nat, w: nat)
    requires IsDigits(ds, 58) && d < 58 && |ds| < n && w == (n + 3) / 4
    ensures ValueOf(ds + [d], 58) == ValueOf(ds, 58) * 58 + d
    ensures ValueOf(ds + [d], 58) < Pow(WordRadix, w)
  {
    assert (ds + [d])[..|ds|] == ds;
    ValueOfBound(ds + [d], 58);
    WordsHold(|ds| + 1, n, w);
  }

  /** `Pow(58, m) <= Pow(2^32, w)` when `m <= |str| <= 4 * w`. */
  lemma WordsHold(m: nat, n: nat, w: nat)
    requires m <= n && w == (n + 3) / 4
    ensures Pow(58, m) <= Pow(WordRadix, w)
  {
    PowMonotone(58, m, n);
    PowBaseMonotone(58, 256, n);
    PowMonotone(256, n, 4 * w);
    WordPow(w);
  }

  /** The number of bytes the most significant word contributes: the string
      length modulo 4, or 4 when that is 0. */
  function TopBytes(n: nat): (t: nat)
    ensures 1 <= t <= 4
    ensures 1 <= n ==> n == t + 4 * ((n + 3) / 4 - 1)
  {
    if n % 4 == 0 then 4 else n % 4
  }

  /** The top word of a number below `Pow(256, n)` held in `(n + 3) / 4` words
      is below `Pow(256, TopBytes(n))`. */
  lemma TopWordBound(words: seq<nat>, n: nat)
    requires 1 <= n && |words| == (n + 3) / 4 && ValueOf(words, WordRadix) < Pow(256, n)
    ensures words[0] < Pow(256, TopBytes(n))
  {
    var w := |words|;
    var t := TopBytes(n);
    var X := Pow(WordRadix, w - 1);
    ValueOfCons(words, WordRadix);
    WordPow(w - 1);
    PowAdd(256, t, 4 * (w - 1));
    assert words[0] * X < Pow(256, t) * X;
    MulCancelLess(words[0], Pow(256, t), X);
  }

  /** The unpacking loop of the decoder. The first word gives `TopBytes(L)`
      bytes and every further word four, so `cnt` ends at `L`; each byte is the
      word shifted right by `mask` bits, and `mask` starts at
      `(L % 4) * 8` (32 for 0) minus 8 and is reset to 24 after every word. */
  method Unpack(outi: array<uint32>, binu: array<uint8>, L: nat) returns (cnt: nat)
    requires 1 <= L <= binu.Length && outi.Length == (L + 3) / 4
    requires binu[..] == Repeat(0, binu.Length)
    requires ValueOf(outi[..], WordRadix) < Pow(256, L)
    modifies binu
    ensures cnt == L
    ensures binu[..L] == FixedBytes(ValueOf(outi[..], WordRadix), L)
    ensures forall k :: L <= k < binu.Length ==> binu[k] == 0
  {
    ghost var words: seq<nat> := outi[..];
    TopWordBound(words, L);
    var mask: uint64 := ((L % 4) * 8) as uint64;
    if mask == 0 {
      mask := 32;
    }
    mask := mask - 8;
    var j := 0;
    cnt := 0;
    assert words[..0] == [];
    while j < outi.Length
      invariant UnpackState(binu[..], words, j, cnt, mask as nat, L)
    {
      cnt, mask := UnpackStep(outi, binu, j, cnt, mask, words, L);
      j := j + 1;
    }
    UnpackEnd(binu[..], words, cnt, L);
  }

  /** One turn of the unpacking loop: the bytes of word `j`, most significant first. */
  method UnpackStep(outi: array<uint32>, binu: array<uint8>, j: nat, cnt: nat, mask: uint64,
                    ghost words: seq<nat>, ghost L: nat) returns (cnt': nat, mask': uint64)
    requires outi[..] == words && j < outi.Length
    requires UnpackState(binu[..], words, j, cnt, mask as nat, L)
    requires words[0] < Pow(256, TopBytes(L))
    modifies binu
    ensures UnpackState(binu[..], words, j + 1, cnt', mask' as nat, L)
  {
    ghost var n := if j == 0 then TopBytes(L) else 4;
    ghost var before := binu[..];
    WordReady(before, words, j, cnt, mask as nat, L);
    cnt', mask' := UnpackWord(outi[j], binu, cnt, mask, n, ValueOf(words[..j], WordRadix));
    UnpackNext(before, binu[..], words, j, cnt', L);
    mask' := 24;
  }

  /** The invariant of the unpacking loop after `j` words. */
  ghost predicate UnpackState(bs: seq<uint8>, words: seq<nat>, j: nat, cnt: nat, mask: nat, L: nat)
  {
    1 <= L <= |bs| && |words| == (L + 3) / 4 && j <= |words|
    && (j == 0 ==> cnt == 0 && mask == 8 * (TopBytes(L) - 1))
    && (j > 0 ==> cnt == TopBytes(L) + 4 * (j - 1) && mask == 24)
    && ValueOf(bs[..cnt], 256) == ValueOf(words[..j], WordRadix)
    && (forall k :: cnt <= k < |bs| ==> bs[k] == 0)
  }

  /** Word `j` is below `Pow(256, n)` for the `n` bytes it gives, `mask`
      is the shift of its top byte, and those bytes fit in the buffer. */
  lemma WordReady(bs: seq<uint8>, words: seq<nat>, j: nat, cnt: nat, mask: nat, L: nat)
    requires UnpackState(bs, words, j, cnt, mask, L) && j < |words|
    requires words[0] < Pow(256, TopBytes(L)) && forall k :: 0 <= k < |words| ==> words[k] < WordRadix
    ensures var n := if j == 0 then TopBytes(L) else 4;
      && 1 <= n <= 4 && mask == 8 * (n - 1) && words[j] < Pow(256, n) && cnt + n <= |bs|
  {
    assert Pow(256, 4) == WordRadix;
    assert L == TopBytes(L) + 4 * (|words| - 1);
  }

  /** After word `j` the bytes written spell the words up to and including `j`. */
  lemma UnpackNext(before: seq<uint8>, bs: seq<uint8>, words: seq<nat>, j: nat, cnt: nat, L: nat)
    requires j < |words| && |bs| == |before|
    requires var n := if j == 0 then TopBytes(L) else 4;
      && n <= cnt && UnpackState(before, words, j, cnt - n, 8 * (n - 1), L)
      && ValueOf(bs[..cnt], 256) == ValueOf(words[..j], WordRadix) * Pow(256, n) + words[j]
      && cnt <= |bs| && (forall k :: cnt <= k < |bs| ==> bs[k] == before[k])
    ensures UnpackState(bs, words, j + 1, cnt, 24, L)
  {
    assert words[..j + 1][..j] == words[..j];
    assert Pow(256, 4) == WordRadix;
  }

  /** After the last word the `L` bytes written are the number's `L` bytes. */
  lemma UnpackEnd(bs: seq<uint8>, words: seq<nat>, cnt: nat, L: nat)
    requires UnpackState(bs, words, |words|, cnt, 24, L) && 1 <= |words|
    ensures cnt == L && bs[..L] == FixedBytes(ValueOf(words, WordRadix), L)
  {
    assert cnt == L by {
      assert L == TopBytes(L) + 4 * (|words| - 1);
    }
    assert words[..|words|] == words;
    var b: seq<nat> := bs[..L];
    ToFixedUnique(b, 256);
  }

  /** The inner unpacking loop for one word `w` of `n` bytes: while `mask` is
      below 32 it writes `w >> mask` truncated to a byte and lowers `mask` by 8;
      the subtraction below 0 wraps around as Go's `uint` does and ends the loop. */
  method UnpackWord(w: uint32, binu: array<uint8>, cnt: nat, mask: uint64, ghost n: nat, ghost P: nat)
      returns (cnt': nat, mask': uint64)
    requires 1 <= n <= 4 && mask as nat == 8 * (n - 1) && w < Pow(256, n)
    requires cnt + n <= binu.Length && ValueOf(binu[..cnt], 256) == P
    modifies binu
    ensures cnt' == cnt + n && mask' >= 32
    ensures ValueOf(binu[..cnt'], 256) == P * Pow(256, n) + w
    ensures forall k :: cnt' <= k < binu.Length ==> binu[k] == old(binu[k])
  {
    cnt' := cnt;
    mask' := mask;
    ghost var e := 0;
    WordStart(binu[..], cnt, mask as nat, 0x1_0000_0000_0000_0000, n, P, w);
    while mask' < 32
      invariant WordState(binu[..], old(binu[..]), cnt, cnt', mask' as nat, 0x1_0000_0000_0000_0000, e, n, P, w)
      decreases n - e
    {
      cnt', mask' := UnpackCell(binu, cnt', mask', w, e, n, P, cnt, old(binu[..]));
      e := e + 1;
    }
  }

  /** The invariant of the inner unpacking loop after `e` of the word's `n`
      bytes: `mask` is the shift of the next byte, or has wrapped around once
      all are written (modulo `M`, the range of its type), and the bytes so
      far spell `P` followed by the top `e` bytes of `w`. */
  ghost predicate WordState(bs: seq<uint8>, orig: seq<uint8>, cnt0: nat, cnt: nat, mask: nat, M: nat,
                            e: nat, n: nat, P: nat, w: nat)
  {
    e <= n && cnt == cnt0 + e && cnt0 + n <= |bs| == |orig|
    && mask == (if e < n then 8 * (n - 1 - e) else M - 8)
    && ValueOf(bs[..cnt], 256) == P * Pow(256, e) + ShiftRight(w, 8 * (n - e))
    && (forall k :: cnt <= k < |bs| ==> bs[k] == orig[k])
  }

  lemma WordStart(bs: seq<uint8>, cnt: nat, mask: nat, M: nat, n: nat, P: nat, w: nat)
    requires 1 <= n && mask == 8 * (n - 1) && w < Pow(256, n)
    requires cnt + n <= |bs| && ValueOf(bs[..cnt], 256) == P
    ensures WordState(bs, bs, cnt, cnt, mask, M, 0, n, P, w)
  {
    BytePow(n);
    DivModUnique(w, Pow(256, n), 0, w);
  }

  /** One byte of the inner unpacking loop. */
  method UnpackCell(binu: array<uint8>, cnt: nat, mask: uint64, w: uint32, ghost e: nat, ghost n: nat, ghost P: nat,
                    ghost cnt0: nat, ghost orig: seq<uint8>)
      returns (cnt': nat, mask': uint64)
    requires WordState(binu[..], orig, cnt0, cnt, mask as nat, 0x1_0000_0000_0000_0000, e, n, P, w) && mask < 32
    modifies binu
    ensures WordState(binu[..], orig, cnt0, cnt', mask' as nat, 0x1_0000_0000_0000_0000, e + 1, n, P, w)
  {
    ghost var bs := binu[..];
    binu[cnt] := (ShiftRight(w, mask as nat) % 256) as uint8;
    mask' := ((mask as int - 8) % 0x1_0000_0000_0000_0000) as uint64;
    cnt' := cnt + 1;
    CellStep(bs, binu[..], orig, cnt0, cnt, mask as nat, mask' as nat, 0x1_0000_0000_0000_0000, e, n, P, w);
  }

  /** Writing one byte and moving the shift down by 8, modulo the width `M` of
      the shift variable, keeps `WordState`: after the last byte the shift
      wraps around to `M - 8`. */
  lemma CellStep(bs: seq<uint8>, bs': seq<uint8>, orig: seq<uint8>, cnt0: nat, cnt: nat, mask: nat, mask': nat,
                 M: nat, e: nat, n: nat, P: nat, w: nat)
    requires WordState(bs, orig, cnt0, cnt, mask, M, e, n, P, w) && mask <= 0x18 && 0x100 <= M
    requires bs' == bs[cnt := ShiftRight(w, mask) % 256] && mask' == (mask as int - 8) % M
    ensures WordState(bs', orig, cnt0, cnt + 1, mask', M, e + 1, n, P, w)
  {
    assert e < n;
    UnpackByte(bs, bs', cnt, P, w, e, n - e - 1);
    MaskWrap(mask, M, e, n);
  }

  /** The shift after byte `e` of `n`, computed modulo `M`. */
  lemma MaskWrap(m: nat, M: nat, e: nat, n: nat)
    requires e < n && m == 8 * (n - 1 - e) <= 0x18 && 0x100 <= M
    ensures (m as int - 8) % M == if e + 1 < n then 8 * (n - 1 - (e + 1)) else M - 8
  {
    if m == 0 {
      DivModUnique(M - 8, M, 0, M - 8);
    }
  }

  /** Writing byte `(w >> 8 * k) & 0xff` after the bytes spelling
      `P * Pow(256, e) + w >> 8 * (k + 1)` spells `P * Pow(256, e + 1) + w >> 8 * k`. */
  lemma UnpackByte(bs: seq<uint8>, bs': seq<uint8>, cnt: nat, P: nat, w: nat, e: nat, k: nat)
    requires cnt < |bs|
    requires bs' == bs[cnt := ShiftRight(w, 8 * k) % 256]
    requires ValueOf(bs[..cnt], 256) == P * Pow(256, e) + ShiftRight(w, 8 * k + 8)
    ensures ValueOf(bs'[..cnt + 1], 256) == P * Pow(256, e + 1) + ShiftRight(w, 8 * k)
  {
    var y := ShiftRight(w, 8 * k);
    assert bs'[..cnt + 1] == bs[..cnt] + [y % 256];
    ShiftRightByte(w, k);
    ShiftByte(P, Pow(256, e), y);
  }

  lemma ShiftByte(P: nat, X: nat, y: nat)
    ensures (P * X + y / 256) * 256 + y % 256 == P * (256 * X) + y
  {
  }

  /** The final scan of the decoder: from `zcount` on it looks for the first
      nonzero byte and returns the `zcount` bytes before it and everything up to
      `cnt`; when there is none, it returns the first `cnt` bytes. */
  method Trim(binu: array<uint8>, zcount: nat, cnt: nat, ghost D: seq<uint8>) returns (bin: seq<uint8>)
    requires cnt <= binu.Length && zcount + |D| <= cnt
    requires binu[..cnt] == Repeat(0, cnt - |D|) + D
    requires forall k :: cnt <= k < binu.Length ==> binu[k] == 0
    requires D == [] || D[0] != 0
    requires D == [] ==> zcount == cnt
    ensures bin == Repeat(0, zcount) + D
  {
    for n := zcount to binu.Length
      invariant forall k :: zcount <= k < n ==> binu[k] == 0
    {
      if binu[n] > 0 {
        TrimFound(binu[..], cnt, zcount, D, n);
        return binu[n - zcount..cnt];
      }
    }
    TrimNone(binu[..], cnt, zcount, D);
    return binu[..cnt];
  }

  /** The first nonzero byte from `z` on is the first byte of `D`. */
  lemma TrimFound(bs: seq<uint8>, cnt: nat, z: nat, D: seq<uint8>, n: nat)
    requires cnt <= |bs| && z + |D| <= cnt && bs[..cnt] == Repeat(0, cnt - |D|) + D
    requires forall k :: cnt <= k < |bs| ==> bs[k] == 0
    requires D == [] || D[0] != 0
    requires z <= n < |bs| && bs[n] > 0 && forall k :: z <= k < n ==> bs[k] == 0
    ensures z <= n <= cnt && bs[n - z..cnt] == Repeat(0, z) + D
  {
    var p := cnt - |D|;
    assert n < cnt;
    assert bs[n] == (Repeat(0, p) + D)[n];
    assert p <= n;
    assert bs[p] == (Repeat(0, p) + D)[p];
    assert n == p;
    assert bs[n - z..cnt] == (Repeat(0, p) + D)[p - z..];
    DropLeading<uint8>(0, p, z, D);
  }

  /** No nonzero byte from `z` on: the number is zero and every byte is a
      leading zero. */
  lemma TrimNone(bs: seq<uint8>, cnt: nat, z: nat, D: seq<uint8>)
    requires cnt <= |bs| && z + |D| <= cnt && bs[..cnt] == Repeat(0, cnt - |D|) + D
    requires D == [] || D[0] != 0
    requires D == [] ==> z == cnt
    requires forall k :: z <= k < |bs| ==> bs[k] == 0
    ensures bs[..cnt] == Repeat(0, z) + D
  {
    assert forall k :: 0 <= k < |D| ==> bs[cnt - |D| + k] == D[k];
    assert D == [];
  }
}
