/** What the codec computes, stated on values. The fast converters of base58.go
    and of base58/base58.go and the big-integer converters of base58/base58.go
    are each proved equal to one of these functions; the lemmas here then say
    what those functions promise: the round trip, the canonical form of an
    encoding, the leading zeros, the buffer sizes, and the agreement of the two
    decoders. */
module Codec {

  import opened Numeric
  import opened Results
  import opened Alphabets

  /** Why decoding fails. */
  datatype DecodeError =
    | EmptyInput        // the string has no character at all
    | NonAsciiDigit     // a character above 127
    | InvalidDigit      // an ASCII character that is not a symbol of the alphabet
    | CarryOverflow     // base58/base58.go: a carry out of the top word
    | HighWordOverflow  // base58/base58.go: the top word holds more bytes than the string allows

  // ---------------------------------------------------------------------------
  // Bytes of a number

  /** `big.Int.Bytes`: the minimal big-endian bytes of `n`, empty for 0. */
  function BigBytes(n: nat): (r: seq<uint8>)
    ensures r == ToDigits(n, 256)
  {
    ToDigits(n, 256)
  }

  /** The `k` least significant bytes of `n`, big-endian. */
  function FixedBytes(n: nat, k: nat): (r: seq<uint8>)
    ensures r == ToFixed(n, 256, k)
  {
    ToFixed(n, 256, k)
  }

  // ---------------------------------------------------------------------------
  // Encoding

  /** The symbols of the base-58 digits `ds`. */
  function Symbols(ds: seq<nat>, a: Alphabet): (r: seq<uint8>)
    requires |a.encode| == 58 && IsDigits(ds, 58)
    ensures |r| == |ds|
  {
    seq(|ds|, i requires 0 <= i < |ds| => a.encode[ds[i]])
  }

  /** The encoding of `bin`: one zero symbol for each leading zero byte, then the
      symbols of the minimal base-58 digits of the big-endian number `bin`. */
  function Encoding(bin: seq<uint8>, a: Alphabet): seq<uint8>
    requires |a.encode| == 58
  {
    Repeat(a.encode[0], CountLeading(bin, 0)) + Symbols(ToDigits(ValueOf(bin, 256), 58), a)
  }

  // ---------------------------------------------------------------------------
  // Decoding

  /** `c` is a character the decode table maps to a digit. */
  predicate IsSymbol(c: nat, a: Alphabet)
    requires a.Shaped()
  {
    c < 128 && a.decode[c] != -1
  }

  /** The error a decoder reports for a character that is not a symbol. */
  function SymbolError(c: nat): DecodeError
  {
    if c > 127 then NonAsciiDigit else InvalidDigit
  }

  /** `str[k]` is the first character of `str` that is not a symbol. */
  predicate FirstBad(str: seq<uint8>, k: int, a: Alphabet)
    requires a.Shaped()
  {
    0 <= k < |str| && !IsSymbol(str[k], a) && forall i :: 0 <= i < k ==> IsSymbol(str[i], a)
  }

  /** The number of characters at the front of `str` that are symbols. */
  function SymbolRun(str: seq<uint8>, a: Alphabet): (n: nat)
    requires a.Shaped()
    ensures n <= |str| && forall i :: 0 <= i < n ==> IsSymbol(str[i], a)
    ensures n < |str| ==> !IsSymbol(str[n], a)
  {
    if str == [] || !IsSymbol(str[0], a) then 0
    else
      assert forall i :: 1 <= i < |str| ==> str[1..][i - 1] == str[i];
      1 + SymbolRun(str[1..], a)
  }

  /** The digits of the characters of `str`, read through the decode table, or
      the error for its first character that is not a symbol. */
  function DigitsOf(str: seq<uint8>, a: Alphabet): (r: Result<seq<nat>, DecodeError>)
    requires a.Shaped()
    ensures r.Ok? <==> forall i :: 0 <= i < |str| ==> IsSymbol(str[i], a)
    ensures r.Ok? ==> |r.value| == |str| && IsDigits(r.value, 58)
    ensures r.Ok? ==> forall i :: 0 <= i < |str| ==> r.value[i] == a.decode[str[i]]
    ensures r.Err? ==> FirstBad(str, SymbolRun(str, a), a) && r.error == SymbolError(str[SymbolRun(str, a)])
  {
    var n := SymbolRun(str, a);
    if n < |str| then Err(SymbolError(str[n])) else Ok(DigitValues(str, a))
  }

  /** The digits of a string of symbols, read through the decode table. */
  function DigitValues(str: seq<uint8>, a: Alphabet): (ds: seq<nat>)
    requires a.Shaped() && forall i :: 0 <= i < |str| ==> IsSymbol(str[i], a)
    ensures |ds| == |str| && forall i :: 0 <= i < |str| ==> IsSymbol(str[i], a) && ds[i] == a.decode[str[i]]
  {
    if str == [] then []
    else
      var init := str[..|str| - 1];
      assert forall i :: 0 <= i < |init| ==> init[i] == str[i];
      var c := str[|str| - 1];
      assert IsSymbol(c, a);
      DigitValues(init, a) + [a.decode[c] as nat]
  }

  /** At most one position is the first one that is not a symbol. */
  lemma FirstBadUnique(str: seq<uint8>, j: int, k: int, a: Alphabet)
    requires a.Shaped() && FirstBad(str, j, a) && FirstBad(str, k, a)
    ensures j == k
  {
    assert !(j < k) by {
      assert !IsSymbol(str[j], a);
    }
    assert !(k < j) by {
      assert !IsSymbol(str[k], a);
    }
  }

  /** Reading one more symbol appends its digit. */
  lemma DigitsOfExtend(str: seq<uint8>, i: nat, a: Alphabet)
    requires a.Shaped() && i < |str| && DigitsOf(str[..i], a).Ok? && IsSymbol(str[i], a)
    ensures DigitsOf(str[..i + 1], a) == Ok(DigitsOf(str[..i], a).value + [a.decode[str[i]]])
  {
    var p, q := str[..i], str[..i + 1];
    var ds := DigitsOf(p, a).value;
    assert forall k :: 0 <= k < i ==> q[k] == p[k] && IsSymbol(p[k], a);
    assert forall k :: 0 <= k <= i ==> IsSymbol(q[k], a);
    var r := DigitsOf(q, a);
    assert r.value == ds + [a.decode[str[i]]];
  }

  /** A decoder that has read `str[..i]` without error and meets a character
      that is not a symbol fails exactly as `DigitsOf` does on the whole string. */
  lemma DigitsOfStops(str: seq<uint8>, i: nat, a: Alphabet)
    requires a.Shaped() && i < |str| && DigitsOf(str[..i], a).Ok? && !IsSymbol(str[i], a)
    ensures DigitsOf(str, a) == Err(SymbolError(str[i]))
  {
    assert FirstBad(str, i, a) by {
      assert forall k :: 0 <= k < i ==> str[..i][k] == str[k];
    }
    FirstBadUnique(str, i, SymbolRun(str, a), a);
  }

  /** The big-integer decoding of `str`: one zero byte for each leading zero
      symbol, then the minimal bytes of the base-58 number the symbols spell. */
  function ReferenceDecoding(str: seq<uint8>, a: Alphabet): Result<seq<uint8>, DecodeError>
    requires a.Shaped()
  {
    match DigitsOf(str, a)
    case Err(e) => Err(e)
    case Ok(ds) => Ok(Repeat(0, CountLeading(str, a.encode[0])) + BigBytes(ValueOf(ds, 58)))
  }

  /** The decoding the fast decoder of base58.go computes: the empty string is an
      error, everything else decodes as `ReferenceDecoding` does. */
  function Decoding(str: seq<uint8>, a: Alphabet): Result<seq<uint8>, DecodeError>
    requires a.Shaped()
  {
    if str == [] then Err(EmptyInput) else ReferenceDecoding(str, a)
  }

  /** The trim of the fast decoder of base58/base58.go: it finds the first
      nonzero byte, if any, and keeps `z` bytes before it, or as many as there are. */
  function TrimClamped(bs: seq<uint8>, z: nat): seq<uint8>
  {
    var n := CountLeading(bs, 0);
    if n == |bs| then bs else bs[if n >= z then n - z else 0..]
  }

  /** The decoding the fast decoder of base58/base58.go computes: the number the
      symbols spell, written as exactly one byte per character, then trimmed. */
  function FrozenDecoding(str: seq<uint8>, a: Alphabet): Result<seq<uint8>, DecodeError>
    requires a.Shaped()
  {
    if str == [] then Err(EmptyInput)
    else
      match DigitsOf(str, a)
      case Err(e) => Err(e)
      case Ok(ds) =>
        Ok(TrimClamped(FixedBytes(ValueOf(ds, 58), |str|), CountLeading(str, a.encode[0])))
  }

  /** The decoding the big-integer decoder of base58/base58.go computes. Its
      padding loop steps over the leading bytes equal to `byte(-1)`, 255, and
      its digit loop then reads the first `|str| - j` characters from the
      start, `j` being the number of bytes stepped over. */
  function TrivialDecoding(str: seq<uint8>, a: Alphabet): Result<seq<uint8>, DecodeError>
    requires a.Shaped()
  {
    var j := CountLeading(str, 255);
    match DigitsOf(str[..|str| - j], a)
    case Err(e) => Err(e)
    case Ok(ds) => Ok(Repeat(0, CountLeading(str, a.encode[0])) + BigBytes(ValueOf(ds, 58)))
  }

  // ---------------------------------------------------------------------------
  // Buffer sizes

  /** `m` bytes need at most `m * 138 / 100 + 1` base-58 digits: 256^8 <= 58^11
      and 11/8 <= 1.38, so each 8 bytes take 11 more digits. */
  lemma {:induction false} DigitBufferSuffices(m: nat)
    ensures Pow(256, m) <= Pow(58, m * 138 / 100 + 1)
  {
    if m < 8 {
      DigitBufferSmall(m);
    } else {
      var k := (m - 8) * 138 / 100 + 1;
      DigitBufferSuffices(m - 8);
      PowAdd(256, 8, m - 8);
      PowAdd(58, 11, k);
      assert Pow(256, 8) <= Pow(58, 11);
      MulMonotone(Pow(256, 8), Pow(256, m - 8), Pow(58, 11), Pow(58, k));
      assert m * 138 == (m - 8) * 138 + 1104;
      PowMonotone(58, 11 + k, m * 138 / 100 + 1);
    }
  }

  lemma DigitBufferSmall(m: nat)
    requires m < 8
    ensures Pow(256, m) <= Pow(58, m * 138 / 100 + 1)
  {
    if m < 4 {
      DigitBufferTiny(m);
    } else if m < 6 {
      DigitBufferFourFive(m);
    } else {
      DigitBufferSixSeven(m);
    }
  }

  lemma DigitBufferFourFive(m: nat)
    requires 4 <= m < 6
    ensures Pow(256, m) <= Pow(58, m * 138 / 100 + 1)
  {
    if m == 4 {
      assert Pow(256, 4) <= Pow(58, 6);
    } else {
      assert Pow(256, 5) <= Pow(58, 7);
    }
  }

  lemma DigitBufferSixSeven(m: nat)
    requires 6 <= m < 8
    ensures Pow(256, m) <= Pow(58, m * 138 / 100 + 1)
  {
    if m == 6 {
      DigitBufferSix();
    } else {
      DigitBufferSeven();
    }
  }

  lemma DigitBufferSix()
    ensures Pow(256, 6) <= Pow(58, 9)
  {
    assert Pow(58, 9) == 58 * Pow(58, 8);
  }

  lemma DigitBufferSeven()
    ensures Pow(256, 7) <= Pow(58, 10)
  {
    assert Pow(58, 10) == 58 * 58 * Pow(58, 8);
  }

  lemma DigitBufferTiny(m: nat)
    requires m < 4
    ensures Pow(256, m) <= Pow(58, m * 138 / 100 + 1)
  {
    if m == 1 {
      assert Pow(256, 1) <= Pow(58, 2);
    } else if m == 2 {
      assert Pow(256, 2) <= Pow(58, 3);
    } else if m == 3 {
      assert Pow(256, 3) <= Pow(58, 5);
    }
  }

  /** The digit buffers of both encoders are large enough: the fast one sizes its
      buffer from the bytes after the leading zeros, the big-integer one from all bytes. */
  lemma EncodingFitsBuffer(bin: seq<uint8>)
    ensures |ToDigits(ValueOf(bin, 256), 58)| <= (|bin| - CountLeading(bin, 0)) * 138 / 100 + 1
    ensures CountLeading(bin, 0) + |ToDigits(ValueOf(bin, 256), 58)| <= |bin| * 138 / 100 + 1
  {
    var z := CountLeading(bin, 0);
    var m := |bin| - z;
    var v := ValueOf(bin, 256);
    var k := m * 138 / 100 + 1;
    StripLeadingZeros(bin, 256);
    ValueOfBound(bin[z..], 256);
    assert v < Pow(256, m);
    DigitBufferSuffices(m);
    assert v < Pow(58, k);
    ToDigitsLength(v, 58, k);
    ScaleSplit(z, m);
  }

  lemma ScaleSplit(z: nat, m: nat)
    ensures z + m * 138 / 100 <= (z + m) * 138 / 100
  {
    assert (z + m) * 138 == z * 138 + m * 138;
  }

  // ---------------------------------------------------------------------------
  // Properties of the encoding

  /** The bytes 00 01 09 encode as "15a" in the bitcoin alphabet: one '1' for
      the zero byte, then the digits 4 and 33 of 0x0109 = 265 = 4 * 58 + 33. */
  lemma EncodingVector()
    ensures Encoding([0, 1, 9], BtcAlphabet) == ['1' as uint8, '5' as uint8, 'a' as uint8]
  {
    var bin: seq<uint8> := [0, 1, 9];
    VectorValue(bin);
    VectorDigits();
    VectorSymbols();
    assert Repeat(BtcSymbols[0], 1) == ['1' as uint8];
  }

  /** The bytes 00 01 09 spell 265 after one zero byte. */
  lemma VectorValue(bin: seq<uint8>)
    requires bin == [0, 1, 9]
    ensures ValueOf(bin, 256) == 265 && CountLeading(bin, 0) == 1
  {
    var n0: seq<nat> := [0];
    var n1: seq<nat> := [0, 1];
    var n2: seq<nat> := [0, 1, 9];
    assert n0[..0] == [] && ValueOf(n0, 256) == 0;
    assert n1[..1] == n0 && ValueOf(n1, 256) == 1;
    assert n2[..2] == n1 && ValueOf(n2, 256) == 265;
    assert bin == n2;
    assert bin[1..] == [1, 9];
  }

  /** 265 = 4 * 58 + 33. */
  lemma VectorDigits()
    ensures ToDigits(265, 58) == [4, 33]
  {
    assert ToDigits(0, 58) == [];
    assert ToDigits(4, 58) == [4];
  }

  /** The bitcoin symbols of the digits 4 and 33. */
  lemma VectorSymbols()
    ensures Symbols([4, 33], BtcAlphabet) == ['5' as uint8, 'a' as uint8]
  {
    assert BtcSymbols[4] == '5' as uint8 && BtcSymbols[33] == 'a' as uint8;
  }

  /** Zero bytes encode as zero symbols, one for one; the empty input encodes as
      the empty string. */
  lemma EncodingAllZero(n: nat, a: Alphabet)
    requires |a.encode| == 58
    ensures Encoding(Repeat<uint8>(0, n), a) == Repeat<uint8>(a.encode[0], n)
  {
    var bin: seq<uint8> := Repeat(0, n);
    CountLeadingPrefix<uint8>(0, n, []);
    assert bin + [] == bin;
    ValueOfZeros(bin, 256);
    assert ToDigits(ValueOf(bin, 256), 58) == [];
    assert Repeat(a.encode[0], n) + [] == Repeat(a.encode[0], n);
  }

  /** With distinct symbols, an encoding starts with exactly as many zero symbols
      as the input has leading zero bytes. */
  lemma EncodingLeadingZeros(bin: seq<uint8>, a: Alphabet)
    requires a.Valid()
    ensures CountLeading(Encoding(bin, a), a.encode[0]) == CountLeading(bin, 0)
  {
    var D := ToDigits(ValueOf(bin, 256), 58);
    var S := Symbols(D, a);
    assert S != [] ==> S[0] == a.encode[D[0]] && D[0] != 0;
    CountLeadingPrefix(a.encode[0], CountLeading(bin, 0), S);
  }

  /** The digits of an alphabet's own symbols: zero symbols are exactly zero
      digits, and the symbols of the digits give the string back. */
  lemma DigitsOfSymbols(str: seq<uint8>, a: Alphabet)
    requires a.Valid() && DigitsOf(str, a).Ok?
    ensures CountLeading(DigitsOf(str, a).value, 0) == CountLeading(str, a.encode[0])
    ensures Symbols(DigitsOf(str, a).value, a) == str
  {
    ZeroDigits(str, a);
    DecodeTableInverts(a.encode);
  }

  /** Zero symbols are exactly zero digits, so a string and its digits open
      with as many of them. */
  lemma ZeroDigits(str: seq<uint8>, a: Alphabet)
    requires a.Valid() && DigitsOf(str, a).Ok?
    ensures CountLeading(DigitsOf(str, a).value, 0) == CountLeading(str, a.encode[0])
  {
    var ds := DigitsOf(str, a).value;
    DecodeTableInverts(a.encode);
    assert a.decode[a.encode[0]] == 0;
    assert forall i :: 0 <= i < |str| ==> (ds[i] == 0 <==> str[i] == a.encode[0]);
    CountLeadingSame(ds, 0, str, a.encode[0]);
  }

  /** Round trip: decoding an encoding gives the input back. The fast decoder
      refuses the empty string, so for it the round trip holds for every
      nonempty input, and the empty input is the one exception. */
  lemma DecodingEncoding(bin: seq<uint8>, a: Alphabet)
    requires a.Valid()
    ensures ReferenceDecoding(Encoding(bin, a), a) == Ok(bin)
    ensures Encoding(bin, a) == [] <==> bin == []
    ensures bin != [] ==> Decoding(Encoding(bin, a), a) == Ok(bin)
  {
    var z := CountLeading(bin, 0);
    var v := ValueOf(bin, 256);
    var D := ToDigits(v, 58);
    var ds := Repeat(0, z) + D;
    var str := Encoding(bin, a);
    DigitsOfEncoding(bin, a);
    ValueOfPadded(z, D, 58);
    EncodingLeadingZeros(bin, a);
    BytesSplit(bin);
    ReferenceDecodingOk(str, a, ds, z, v);
    EncodingEmpty(bin, a);
  }

  /** A byte string is its leading zero bytes followed by the minimal bytes of its value. */
  lemma BytesSplit(bin: seq<uint8>)
    ensures bin == Repeat(0, CountLeading(bin, 0)) + BigBytes(ValueOf(bin, 256))
  {
    StripLeadingZeros(bin, 256);
    SplitLeading(bin, 0, CountLeading(bin, 0));
  }

  /** `ReferenceDecoding` of a string whose digits, value and leading zero
      symbols are known. */
  lemma ReferenceDecodingOk(str: seq<uint8>, a: Alphabet, ds: seq<nat>, z: nat, v: nat)
    requires a.Shaped() && DigitsOf(str, a) == Ok(ds) && ValueOf(ds, 58) == v && CountLeading(str, a.encode[0]) == z
    ensures ReferenceDecoding(str, a) == Ok(Repeat(0, z) + BigBytes(v))
  {
  }

  /** Only the empty input encodes as the empty string. */
  lemma EncodingEmpty(bin: seq<uint8>, a: Alphabet)
    requires |a.encode| == 58
    ensures Encoding(bin, a) == [] <==> bin == []
  {
    var z := CountLeading(bin, 0);
    var v := ValueOf(bin, 256);
    StripLeadingZeros(bin, 256);
    assert |Encoding(bin, a)| == z + |ToDigits(v, 58)|;
    assert |bin| == z + |ToDigits(v, 256)|;
  }

  /** The digits of an encoding are the zero digits for the leading zero bytes
      followed by the minimal base-58 digits of the input. */
  lemma DigitsOfEncoding(bin: seq<uint8>, a: Alphabet)
    requires a.Valid()
    ensures DigitsOf(Encoding(bin, a), a)
         == Ok(Repeat(0, CountLeading(bin, 0)) + ToDigits(ValueOf(bin, 256), 58))
  {
    var z := CountLeading(bin, 0);
    var D := ToDigits(ValueOf(bin, 256), 58);
    var ds := Repeat(0, z) + D;
    assert Encoding(bin, a) == Symbols(ds, a) by {
      SymbolsConcat(Repeat(0, z), D, a);
      assert Symbols(Repeat(0, z), a) == Repeat(a.encode[0], z);
    }
    DigitsOfSymbolString(ds, a);
  }

  /** The symbols of two digit strings are the symbols of each, one after the other. */
  lemma SymbolsConcat(xs: seq<nat>, ys: seq<nat>, a: Alphabet)
    requires |a.encode| == 58 && IsDigits(xs, 58) && IsDigits(ys, 58)
    ensures Symbols(xs + ys, a) == Symbols(xs, a) + Symbols(ys, a)
  {
  }

  /** Reading back the symbols of any digit string gives the digits. */
  lemma DigitsOfSymbolString(ds: seq<nat>, a: Alphabet)
    requires a.Valid() && IsDigits(ds, 58)
    ensures DigitsOf(Symbols(ds, a), a) == Ok(ds)
  {
    var str := Symbols(ds, a);
    DecodeTableInverts(a.encode);
    assert forall i :: 0 <= i < |str| ==> str[i] == a.encode[ds[i]];
    assert DigitsOf(str, a).value == ds;
  }

  /** Canonical form: every string the decoder accepts is the encoding of what it
      decodes to, so no two accepted strings decode to the same bytes. */
  lemma EncodingDecoding(str: seq<uint8>, a: Alphabet, bin: seq<uint8>)
    requires a.Valid() && ReferenceDecoding(str, a) == Ok(bin)
    ensures Encoding(bin, a) == str
  {
    var ds := DigitsOf(str, a).value;
    var z := CountLeading(str, a.encode[0]);
    var v := ValueOf(ds, 58);
    var B := BigBytes(v);
    ZeroDigits(str, a);
    StripLeadingZeros(ds, 58);
    assert ToDigits(v, 58) == ds[z..];
    assert bin == Repeat(0, z) + B;
    CountLeadingPrefix<uint8>(0, z, B);
    assert CountLeading(bin, 0) == z;
    ValueOfDropZeros(bin, z, 256);
    assert bin[z..] == B;
    assert ValueOf(bin, 256) == v;
    SymbolsSuffix(str, a, z);
    SplitLeading(str, a.encode[0], z);
  }

  /** The symbols of a suffix of the digits are the same suffix of the string. */
  lemma SymbolsSuffix(str: seq<uint8>, a: Alphabet, z: nat)
    requires a.Valid() && DigitsOf(str, a).Ok? && z <= |str|
    ensures Symbols(DigitsOf(str, a).value[z..], a) == str[z..]
  {
    var ds := DigitsOf(str, a).value;
    DigitsOfSymbols(str, a);
    forall i | 0 <= i < |str| - z
      ensures Symbols(ds[z..], a)[i] == str[z + i]
    {
      assert ds[z..][i] == ds[z + i];
      assert Symbols(ds, a)[z + i] == a.encode[ds[z + i]];
    }
  }

  /** A decoding keeps the leading zeros: it starts with exactly as many zero
      bytes as the string has leading zero symbols. */
  lemma DecodingLeadingZeros(str: seq<uint8>, a: Alphabet, bin: seq<uint8>)
    requires a.Valid() && ReferenceDecoding(str, a) == Ok(bin)
    ensures CountLeading(bin, 0) == CountLeading(str, a.encode[0])
  {
    EncodingDecoding(str, a, bin);
    EncodingLeadingZeros(bin, a);
  }

  /** A string of zero symbols decodes to as many zero bytes. */
  lemma DecodingAllZero(n: nat, a: Alphabet)
    requires a.Valid() && 1 <= n
    ensures Decoding(Repeat<uint8>(a.encode[0], n), a) == Ok(Repeat<uint8>(0, n))
  {
    var zeros: seq<uint8> := Repeat(0, n);
    EncodingAllZero(n, a);
    assert |zeros| == n;
    DecodingEncoding(zeros, a);
  }

  // ---------------------------------------------------------------------------
  // The layout of a decoded number

  /** The number spelt by the symbols of `str` fits in `|str|` bytes; with
      distinct symbols its minimal bytes fit after the bytes for the leading
      zero symbols, and it is zero only when every symbol is the zero symbol. */
  lemma DecodeLayout(str: seq<uint8>, a: Alphabet, v: nat, D: seq<uint8>, z: nat)
    requires a.Valid() && DigitsOf(str, a).Ok? && v == ValueOf(DigitsOf(str, a).value, 58)
    requires D == BigBytes(v) && z == CountLeading(str, a.encode[0])
    ensures v < Pow(256, |str|) && z + |D| <= |str| && (D == [] ==> z == |str|) && (D == [] || D[0] != 0)
  {
    ZeroDigits(str, a);
    NumberLayout(DigitsOf(str, a).value);
  }

  /** A base-58 number of `|ds|` digits, `z` of them leading zeros, has at most
      `|ds| - z` minimal bytes, and none only when all its digits are zero. */
  lemma NumberLayout(ds: seq<nat>)
    requires IsDigits(ds, 58)
    ensures var v := ValueOf(ds, 58);
      && v < Pow(256, |ds|)
      && CountLeading(ds, 0) + |BigBytes(v)| <= |ds|
      && (BigBytes(v) == [] ==> CountLeading(ds, 0) == |ds|)
  {
    var L := |ds|;
    var v := ValueOf(ds, 58);
    var z := CountLeading(ds, 0);
    var m := L - z;
    StripLeadingZeros(ds, 58);
    ValueOfBound(ds[z..], 58);
    assert v < Pow(58, m);
    PowBaseMonotone(58, 256, m);
    assert v < Pow(256, m);
    PowMonotone(256, m, L);
    ToDigitsLength(v, 256, m);
  }

  /** `ToFixedPadded`, for bytes. */
  lemma FixedBytesPadded(v: nat, L: nat)
    requires v < Pow(256, L)
    ensures |BigBytes(v)| <= L
    ensures FixedBytes(v, L) == Repeat(0, L - |BigBytes(v)|) + BigBytes(v)
  {
    ToFixedPadded(v, 256, L);
    var k := L - |BigBytes(v)|;
    assert Repeat<uint8>(0, k) == Repeat<nat>(0, k);
  }

  /** `FixedBytesPadded` for bytes `D` already named. */
  lemma FixedBytesSplit(v: nat, L: nat, D: seq<uint8>)
    requires v < Pow(256, L) && D == BigBytes(v)
    ensures |D| <= L && FixedBytes(v, L) == Repeat(0, L - |D|) + D
  {
    FixedBytesPadded(v, L);
  }

  /** The two fast decoders agree whenever the symbols are distinct: the clamp of
      the older trim never takes effect. They also agree with the big-integer
      decoding on every non-empty string; on the empty one they report an error
      where the big-integer decoding returns no bytes. */
  lemma FrozenDecodingAgrees(str: seq<uint8>, a: Alphabet)
    requires a.Valid()
    ensures FrozenDecoding(str, a) == Decoding(str, a)
    ensures str != [] ==> FrozenDecoding(str, a) == ReferenceDecoding(str, a)
    ensures ReferenceDecoding([], a) == Ok([])
  {
    ReferenceDecodingEmpty(a);
    if str == [] || DigitsOf(str, a).Err? {
      DecodingsErr(str, a);
    } else {
      var ds := DigitsOf(str, a).value;
      var v := ValueOf(ds, 58);
      var z := CountLeading(str, a.encode[0]);
      var D := BigBytes(v);
      DecodeLayout(str, a, v, D, z);
      TrimFixed(v, |str|, z, D);
      DecodingsOk(str, a, ds, v, z, D);
    }
  }

  /** The clamped trim of the number written in `L` bytes keeps `z` zero bytes
      before its minimal bytes, when they fit and the number is zero only if
      `z` is `L`. */
  lemma TrimFixed(v: nat, L: nat, z: nat, D: seq<uint8>)
    requires v < Pow(256, L) && D == BigBytes(v) && z + |D| <= L
    requires (D == [] ==> z == L) && (D == [] || D[0] != 0)
    ensures TrimClamped(FixedBytes(v, L), z) == Repeat(0, z) + D
  {
    FixedBytesSplit(v, L, D);
    TrimPadded(D, L - |D|, z);
  }

  /** Both decodings of the empty string or a string with a non-symbol fail alike. */
  lemma DecodingsErr(str: seq<uint8>, a: Alphabet)
    requires a.Shaped() && (str == [] || DigitsOf(str, a).Err?)
    ensures FrozenDecoding(str, a) == Decoding(str, a)
    ensures str != [] ==> ReferenceDecoding(str, a) == Decoding(str, a)
  {
  }

  /** Both decodings of a non-empty string of symbols, unfolded. */
  lemma DecodingsOk(str: seq<uint8>, a: Alphabet, ds: seq<nat>, v: nat, z: nat, D: seq<uint8>)
    requires a.Shaped() && str != [] && DigitsOf(str, a) == Ok(ds)
    requires v == ValueOf(ds, 58) && z == CountLeading(str, a.encode[0]) && D == BigBytes(v)
    ensures FrozenDecoding(str, a) == Ok(TrimClamped(FixedBytes(v, |str|), z))
    ensures Decoding(str, a) == ReferenceDecoding(str, a) == Ok(Repeat(0, z) + D)
  {
  }

  /** The big-integer decoding reads the empty string as no bytes. */
  lemma ReferenceDecodingEmpty(a: Alphabet)
    requires a.Shaped()
    ensures ReferenceDecoding([], a) == Ok([])
  {
    var empty: seq<uint8> := [];
    assert DigitsOf(empty, a) == Ok([]);
    assert ValueOf([], 58) == 0 && BigBytes(0) == empty;
    assert Repeat<uint8>(0, CountLeading(empty, a.encode[0])) == empty;
    assert ReferenceDecoding(empty, a) == Ok(empty + empty);
    assert empty + empty == empty;
  }

  /** The clamped trim of a padded number keeps `z` of its leading zeros when
      there are at least `z` of them. */
  lemma TrimPadded(D: seq<uint8>, p: nat, z: nat)
    requires z <= p && (D == [] || D[0] != 0) && (D == [] ==> z == p)
    ensures TrimClamped(Repeat(0, p) + D, z) == Repeat(0, z) + D
  {
    CountLeadingPrefix<uint8>(0, p, D);
    if D != [] {
      DropLeading<uint8>(0, p, z, D);
    } else {
      assert Repeat<uint8>(0, p) + D == Repeat(0, z) + D;
    }
  }

  /** The big-integer decoding of base58/base58.go, unfolded, for the number
      `v` that the characters its digit loop reads spell. */
  lemma TrivialDecodingOk(str: seq<uint8>, a: Alphabet, m: nat, z: nat, v: nat)
    requires a.Shaped() && m == |str| - CountLeading(str, 255) && z == CountLeading(str, a.encode[0])
    requires DigitsOf(str[..m], a).Ok? && v == ValueOf(DigitsOf(str[..m], a).value, 58)
    ensures TrivialDecoding(str, a) == Ok(Repeat<uint8>(0, z) + BigBytes(v))
  {
  }

  /** The same for a character its digit loop cannot read. */
  lemma TrivialDecodingErr(str: seq<uint8>, a: Alphabet, m: nat, e: DecodeError)
    requires a.Shaped() && m == |str| - CountLeading(str, 255) && DigitsOf(str[..m], a) == Err(e)
    ensures TrivialDecoding(str, a) == Err(e)
  {
  }

  /** The big-integer decoder of base58/base58.go decodes as the big-integer
      decoding does, except on a non-empty string of 255 bytes only: its
      padding loop consumes all of it and no digit is read. A string that
      merely opens with 255 fails on its first byte either way. */
  lemma TrivialDecodingAgrees(str: seq<uint8>, a: Alphabet)
    requires a.Shaped()
    ensures TrivialDecoding(str, a)
         == if str != [] && CountLeading(str, 255) == |str| then Ok([]) else ReferenceDecoding(str, a)
  {
    var j := CountLeading(str, 255);
    if j == 0 {
      NoPadding(str, a);
    } else if j < |str| {
      PaddingThenSymbols(str, a);
    } else {
      PaddingOnly(str, a);
    }
  }

  /** The big-integer decoder inverts the encoding, the empty input included:
      an encoding consists of symbols, so it never opens with 255. */
  lemma TrivialRoundTrip(bin: seq<uint8>, a: Alphabet)
    requires a.Valid()
    ensures TrivialDecoding(Encoding(bin, a), a) == Ok(bin)
  {
    var str := Encoding(bin, a);
    DecodingEncoding(bin, a);
    TrivialDecodingAgrees(str, a);
    if str != [] {
      assert IsSymbol(str[0], a);
      assert CountLeading(str, 255) == 0;
    }
  }

  /** On the encoding of a non-empty byte string, the fast decoders and the
      big-integer decoder all succeed and agree, each giving the input back. */
  lemma DecodersAgreeOnEncodings(bin: seq<uint8>, a: Alphabet)
    requires a.Valid() && bin != []
    ensures var str := Encoding(bin, a);
      && Decoding(str, a) == Ok(bin)
      && FrozenDecoding(str, a) == Ok(bin)
      && TrivialDecoding(str, a) == Ok(bin)
  {
    DecodingEncoding(bin, a);
    FrozenDecodingAgrees(Encoding(bin, a), a);
    TrivialRoundTrip(bin, a);
  }

  /** Without 255 in front, the digit loop reads the whole string. */
  lemma NoPadding(str: seq<uint8>, a: Alphabet)
    requires a.Shaped() && CountLeading(str, 255) == 0
    ensures TrivialDecoding(str, a) == ReferenceDecoding(str, a)
  {
    ReadAll(str, a, |str| - CountLeading(str, 255));
  }

  /** Reading the first `|str|` characters reads the whole string. */
  lemma ReadAll(str: seq<uint8>, a: Alphabet, n: nat)
    requires a.Shaped() && n == |str|
    ensures DigitsOf(str[..n], a) == DigitsOf(str, a)
  {
    assert str[..n] == str;
  }

  /** A string that opens with 255 but does not consist of it fails on its
      first byte in both decodings. */
  lemma PaddingThenSymbols(str: seq<uint8>, a: Alphabet)
    requires a.Shaped() && 0 < CountLeading(str, 255) < |str|
    ensures TrivialDecoding(str, a) == ReferenceDecoding(str, a) == Err(NonAsciiDigit)
  {
    var p := str[..|str| - CountLeading(str, 255)];
    assert str[0] == 255 && p[0] == 255;
    assert p[..0] == str[..0] == [];
    DigitsOfStops(p, 0, a);
    DigitsOfStops(str, 0, a);
  }

  /** A non-empty string of 255 bytes only is read as no digits at all. */
  lemma PaddingOnly(str: seq<uint8>, a: Alphabet)
    requires a.Shaped() && str != [] && CountLeading(str, 255) == |str|
    ensures TrivialDecoding(str, a) == Ok([])
  {
    var empty: seq<uint8> := [];
    assert str[..0] == empty && str[0] == 255;
    assert DigitsOf(empty, a) == Ok([]);
    assert CountLeading(str, a.encode[0]) == 0;
    assert ValueOf([], 58) == 0 && BigBytes(0) == empty;
    assert Repeat<uint8>(0, 0) == empty;
    assert TrivialDecoding(str, a) == Ok(empty + empty);
    assert empty + empty == empty;
  }
}
