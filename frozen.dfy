/** base58/base58.go: the frozen copy of the package. It has its own alphabet
    constructor, which does not check that the symbols are distinct, the fast
    encoder exactly as base58.go has it, an older fast decoder with two overflow
    guards and a clamped trim, and the big-integer converters. */
module Frozen {

  import opened Numeric
  import opened Results
  import opened Alphabets
  import opened Codec
  import Base58

  // ---------------------------------------------------------------------------
  // Alphabets

  /** `NewAlphabet` (frozen version): the length is checked, and a byte of 128
      or more panics when it indexes the decode table; repeated symbols are
      accepted, each decoding to its last position. */
  method NewAlphabet(s: seq<uint8>) returns (r: Result<Alphabet, AlphabetError>)
    ensures |s| != 58 ==> r == Err(WrongLength)
    ensures |s| == 58 && !IsAscii(s) ==> r == Err(NonAsciiSymbol)
    ensures |s| == 58 && IsAscii(s) ==> r == Ok(Alphabet(DecodeTable(s), s)) && r.value.Shaped()
  {
    if |s| != 58 {
      return Err(WrongLength);
    }
    var encode := s;
    var decode := new int[128];
    for c := 0 to 128
      invariant forall c' :: 0 <= c' < c ==> decode[c'] == -1
    {
      decode[c] := -1;
    }
    assert s[..0] == [];
    for i := 0 to 58
      invariant TableFilled(encode, i, decode[..])
    {
      var b := encode[i];
      if b >= 128 {
        return Err(NonAsciiSymbol);
      }
      ghost var t := decode[..];
      decode[b] := i;
      TableFill(encode, i, t, decode[..]);
    }
    assert encode[..58] == s;
    assert decode[..] == DecodeTable(s);
    r := Ok(Alphabet(decode[..], encode));
  }

  /** `var BTCAlphabet = NewAlphabet(...)` in the frozen package. */
  method InitBtcAlphabet() returns (a: Alphabet)
    ensures a == BtcAlphabet && a.Shaped()
  {
    CanonicalAlphabetsValid();
    var r := NewAlphabet(BtcSymbols);
    a := r.value;
  }

  /** `var FlickrAlphabet = NewAlphabet(...)` in the frozen package. */
  method InitFlickrAlphabet() returns (a: Alphabet)
    ensures a == FlickrAlphabet && a.Shaped()
  {
    CanonicalAlphabetsValid();
    var r := NewAlphabet(FlickrSymbols);
    a := r.value;
  }

  /** 58 ASCII bytes with '1' in the first two places and no 'z': the older
      `NewAlphabet` accepts them, since it does not count distinct symbols. */
  const RepeatedOne: seq<uint8> := ['1' as uint8] + BtcSymbols[..57]

  /** The older `NewAlphabet` accepts `RepeatedOne`, whose decode table maps
      the zero symbol '1' to its last position, 1. */
  lemma RepeatedOneAccepted()
    ensures var a := Alphabet(DecodeTable(RepeatedOne), RepeatedOne);
      && a.Shaped() && !a.Valid() && a.encode[0] == '1' as uint8 && a.decode['1' as int] == 1
  {
    CanonicalAlphabetsValid();
    var s := RepeatedOne;
    assert s[0] == s[1] == '1' as uint8;
    assert forall k :: 1 <= k < 58 ==> s[k] == BtcSymbols[k - 1];
    assert forall k :: 2 <= k < 58 ==> s[k] != '1' as uint8 by {
      assert forall k :: 1 <= k < 58 ==> BtcSymbols[k] != BtcSymbols[0];
    }
    assert '1' as uint8 in s;
  }

  /** When the zero symbol decodes as the digit 1, as a repeated symbol can make
      it, the encoding of the single byte 0 is the zero symbol alone, which the
      fast decoder reads back as the byte 1 and the trivial decoder as the two
      bytes 0, 1: neither round-trips, and the two decoders disagree. */
  lemma ZeroSymbolMisread(a: Alphabet)
    requires a.Shaped() && a.decode[a.encode[0]] == 1
    ensures Encoding([0], a) == [a.encode[0]]
    ensures FrozenDecoding([a.encode[0]], a) == Ok([1])
    ensures ReferenceDecoding([a.encode[0]], a) == Ok([0, 1])
    ensures TrivialDecoding([a.encode[0]], a) == Ok([0, 1])
  {
    var str: seq<uint8> := [a.encode[0]];
    assert ValueOf([0], 256) == 0;
    assert CountLeading([0 as uint8], 0) == 1;
    assert DigitsOf(str, a).value == [1];
    assert ValueOf([1], 58) == 1;
    assert ToDigits(1, 256) == [1] by {
      assert ToDigits(0, 256) == [];
    }
    assert ToFixed(1, 256, 1) == [1] by {
      assert ToFixed(0, 256, 0) == [];
    }
    assert CountLeading([1 as uint8], 0) == 0;
    assert CountLeading(str, a.encode[0]) == 1;
    assert Repeat(a.encode[0], 1) == str;
    var one: seq<uint8> := [1];
    assert BigBytes(1) == one;
    var zero: seq<uint8> := [0];
    assert Repeat<uint8>(0, 1) == zero;
    assert DigitsOf(str, a) == Ok([1]);
    assert ReferenceDecoding(str, a) == Ok(Repeat(0, 1) + BigBytes(ValueOf([1], 58)));
    assert zero + one == [0, 1];
    assert CountLeading(str, 255) == 0;
    NoPadding(str, a);
  }

  /** The lone byte 255, which is no symbol of any alphabet, is consumed by
      the padding loop of the trivial decoder, which then reads no digit and
      decodes it as no bytes; the big-integer decoding rejects it. */
  lemma PaddingByteAccepted(a: Alphabet)
    requires a.Shaped()
    ensures TrivialDecoding([255], a) == Ok([])
    ensures ReferenceDecoding([255], a) == Err(NonAsciiDigit)
  {
    var str: seq<uint8> := [255];
    assert CountLeading(str, 255) == 1;
    PaddingOnly(str, a);
    assert str[..0] == [];
    DigitsOfStops(str, 0, a);
  }

  // ---------------------------------------------------------------------------
  // Encoding

  /** `EncodeAlphabet` (frozen version): the frozen `FastBase58EncodingAlphabet`
      is the same code as the current one, so the call goes to that. */
  method EncodeAlphabet(bin: seq<uint8>, alphabet: Alphabet) returns (s: seq<uint8>)
    requires alphabet.Shaped()
    ensures s == Encoding(bin, alphabet)
    ensures |s| == CountLeading(bin, 0) + |ToDigits(ValueOf(bin, 256), 58)| <= |bin| * 138 / 100 + 1
  {
    s := Base58.FastBase58EncodingAlphabet(bin, alphabet);
    EncodingFitsBuffer(bin);
  }

  /** `TrivialBase58EncodingAlphabet`: the input as a big integer is divided by
      58 until it is zero, each remainder written as a symbol from the back of
      a buffer of `|a| * 138 / 100 + 1` bytes; then one zero symbol goes in
      front for each leading zero byte. It computes the same string as the
      fast encoder. */
  method TrivialBase58EncodingAlphabet(a: seq<uint8>, alphabet: Alphabet) returns (s: seq<uint8>)
    requires |alphabet.encode| == 58
    ensures s == Encoding(a, alphabet)
  {
    var zero := alphabet.encode[0];
    var idx := |a| * 138 / 100 + 1;
    var buf := Base58.MakeBytes(idx);
    EncodingFitsBuffer(a);
    idx := DivideOut(a, buf, alphabet);
    idx := PadZeros(a, buf, idx, zero, Symbols(ToDigits(ValueOf(a, 256), 58), alphabet));
    s := buf[idx..];
  }

  /** The first loop of `TrivialBase58EncodingAlphabet`: `bn, mo = bn.DivMod(bn, 58)`
      while `bn` is not zero. Afterwards the buffer ends with the symbols of
      the minimal base-58 digits of the input, and `idx` is where they start. */
  method DivideOut(a: seq<uint8>, buf: array<uint8>, alphabet: Alphabet) returns (idx: nat)
    requires |alphabet.encode| == 58
    requires buf.Length == |a| * 138 / 100 + 1
    requires CountLeading(a, 0) + |ToDigits(ValueOf(a, 256), 58)| <= buf.Length
    modifies buf
    ensures idx + |ToDigits(ValueOf(a, 256), 58)| == buf.Length
    ensures buf[idx..] == Symbols(ToDigits(ValueOf(a, 256), 58), alphabet)
    ensures buf[..idx] == old(buf[..idx])
  {
    ghost var D := ToDigits(ValueOf(a, 256), 58);
    ghost var orig := buf[..];
    var bn: nat := ValueOf(a, 256);
    idx := buf.Length;
    ghost var ds: seq<nat> := [];
    DivideStart(buf[..], bn, D, alphabet);
    while bn != 0
      invariant DivideState(buf[..], orig, bn, idx, ds, D, alphabet)
      decreases bn
    {
      ghost var mo := bn % 58;
      bn, idx := DivideCell(buf, bn, idx, alphabet, orig, ds, D);
      ds := [mo] + ds;
    }
    DivideDone(buf[..], orig, idx, ds, D, alphabet);
  }

  /** Before the loop nothing is written and `bn` holds all the digits. */
  lemma DivideStart(bs: seq<uint8>, bn: nat, D: seq<nat>, alphabet: Alphabet)
    requires |alphabet.encode| == 58 && D == ToDigits(bn, 58) && |D| <= |bs|
    ensures DivideState(bs, bs, bn, |bs|, [], D, alphabet)
  {
    assert D + [] == D;
  }

  /** When `bn` is zero, all the digits have been written. */
  lemma DivideDone(bs: seq<uint8>, orig: seq<uint8>, idx: nat, ds: seq<nat>, D: seq<nat>, alphabet: Alphabet)
    requires DivideState(bs, orig, 0, idx, ds, D, alphabet)
    ensures idx + |D| == |bs| && bs[idx..] == Symbols(D, alphabet) && bs[..idx] == orig[..idx]
  {
    assert ToDigits(0, 58) == [];
  }

  /** One turn of `DivideOut`'s loop: `bn, mo = bn.DivMod(bn, 58)`, then the
      symbol of `mo` goes in just before those already written. */
  method DivideCell(buf: array<uint8>, bn: nat, idx: nat, alphabet: Alphabet,
                    ghost orig: seq<uint8>, ghost ds: seq<nat>, ghost D: seq<nat>) returns (bn': nat, idx': nat)
    requires DivideState(buf[..], orig, bn, idx, ds, D, alphabet) && bn != 0
    modifies buf
    ensures bn' == bn / 58 && idx' + 1 == idx
    ensures DivideState(buf[..], orig, bn', idx', [bn % 58] + ds, D, alphabet)
  {
    ghost var bs := buf[..];
    var mo := bn % 58;
    assert ToDigits(bn, 58) == ToDigits(bn / 58, 58) + [mo];
    idx' := idx - 1;
    buf[idx'] := alphabet.encode[mo];
    DivideStep(bs, buf[..], orig, bn, idx, ds, D, alphabet);
    bn' := bn / 58;
  }

  /** The invariant of `DivideOut`: the digits still in `bn` followed by the
      digits `ds` already written are the minimal digits `D`, the buffer
      ends with the symbols of `ds`, and before them it is still `orig`. */
  ghost predicate DivideState(bs: seq<uint8>, orig: seq<uint8>, bn: nat, idx: nat, ds: seq<nat>, D: seq<nat>, alphabet: Alphabet)
  {
    |alphabet.encode| == 58 && |D| <= |bs| && D == ToDigits(bn, 58) + ds && IsDigits(ds, 58)
    && idx + |ds| == |bs| && bs[idx..] == Symbols(ds, alphabet)
    && |orig| == |bs| && bs[..idx] == orig[..idx]
  }

  /** One division: the remainder is the last digit of `bn`, and its symbol
      goes just before those already written. */
  lemma DivideStep(bs: seq<uint8>, bs': seq<uint8>, orig: seq<uint8>, bn: nat, idx: nat, ds: seq<nat>, D: seq<nat>, alphabet: Alphabet)
    requires DivideState(bs, orig, bn, idx, ds, D, alphabet) && bn != 0
    requires 1 <= idx && bs' == bs[idx - 1 := alphabet.encode[bn % 58]]
    ensures DivideState(bs', orig, bn / 58, idx - 1, [bn % 58] + ds, D, alphabet)
  {
    assert bs'[..idx - 1] == bs[..idx][..idx - 1] == orig[..idx][..idx - 1] == orig[..idx - 1];
    var mo := bn % 58;
    assert ToDigits(bn, 58) == ToDigits(bn / 58, 58) + [mo];
    assert bs'[idx - 1..] == [alphabet.encode[mo]] + bs[idx..];
    SymbolsConcat([mo], ds, alphabet);
  }

  /** The second loop of `TrivialBase58EncodingAlphabet`: one zero symbol in
      front for each zero byte before the first nonzero one. */
  method PadZeros(a: seq<uint8>, buf: array<uint8>, idx: nat, zero: uint8, ghost S: seq<uint8>)
      returns (idx': nat)
    requires CountLeading(a, 0) <= idx <= buf.Length && buf[idx..] == S
    modifies buf
    ensures idx' <= buf.Length && buf[idx'..] == Repeat(zero, CountLeading(a, 0)) + S
    ensures buf[..idx'] == old(buf[..idx'])
  {
    ghost var z := CountLeading(a, 0);
    idx' := idx;
    var i := 0;
    assert buf[idx'..] == Repeat(zero, 0) + S;
    while i < |a|
      invariant i <= z && idx' + i == idx <= buf.Length && buf[idx'..] == Repeat(zero, i) + S
      invariant forall k :: 0 <= k < idx' ==> buf[k] == old(buf[k])
    {
      if a[i] != 0 {
        break;
      }
      ghost var bs := buf[..];
      idx' := idx' - 1;
      buf[idx'] := zero;
      PadStep(bs, buf[..], idx', zero, i, S);
      i := i + 1;
    }
    assert i == z;
  }

  /** One more zero symbol in front. */
  lemma PadStep(bs: seq<uint8>, bs': seq<uint8>, idx: nat, zero: uint8, i: nat, S: seq<uint8>)
    requires idx < |bs| && bs[idx + 1..] == Repeat(zero, i) + S && bs' == bs[idx := zero]
    ensures bs'[idx..] == Repeat(zero, i + 1) + S
  {
    assert bs'[idx..] == [zero] + bs[idx + 1..];
  }

  // ---------------------------------------------------------------------------
  // Decoding

  /** `DecodeAlphabet` (frozen version). With distinct symbols it decodes as
      the current decoder does. */
  method DecodeAlphabet(str: seq<uint8>, alphabet: Alphabet) returns (r: Result<seq<uint8>, DecodeError>)
    requires alphabet.Shaped()
    ensures r == FrozenDecoding(str, alphabet)
    ensures alphabet.Valid() ==> r == Decoding(str, alphabet)
  {
    r := FastBase58DecodingAlphabet(str, alphabet);
    assert alphabet.Valid() ==> r == Decoding(str, alphabet) by {
      if alphabet.Valid() {
        FrozenDecodingAgrees(str, alphabet);
      }
    }
  }

  /** `FastBase58DecodingAlphabet` (frozen version). Like the current decoder
      it multiplies each digit into `(|str| + 3) / 4` words, but after each
      character it fails when a carry is left over or when the top word has a
      bit set at or above its `|str| % 4` bytes; neither ever happens. The
      words are unpacked into exactly `|str|` bytes, and the trim keeps at most
      `zcount` zero bytes before the first nonzero one, fewer if there are
      fewer. */
  method FastBase58DecodingAlphabet(str: seq<uint8>, alphabet: Alphabet) returns (r: Result<seq<uint8>, DecodeError>)
    requires alphabet.Shaped()
    ensures r == FrozenDecoding(str, alphabet)
  {
    if |str| == 0 {
      return Err(EmptyInput);
    }
    var b58sz := |str|;
    var outisz := (b58sz + 3) / 4;
    var binu := Base58.MakeBytes((b58sz + 3) * 3);
    var zero := alphabet.encode[0];
    var zmask, bytesleft := TopMask(b58sz);
    var outi := Base58.MakeWords(outisz);

    var zcount := 0;
    while zcount < b58sz && str[zcount] == zero
      invariant zcount <= b58sz
      invariant forall k :: 0 <= k < zcount ==> str[k] == zero
    {
      zcount := zcount + 1;
    }
    CountLeadingUnique(str, zero, zcount);

    var read := ReadDigits(str, alphabet, outi, zmask);
    if read.Err? {
      return Err(read.error);
    }
    NumberLayout(DigitsOf(str, alphabet).value);
    var cnt := Unpack(outi, binu, b58sz, bytesleft);
    var bin := Trim(binu, zcount, cnt);
    r := Ok(bin);
  }

  /** The guard of the frozen decoder on the top word: `0xffffffff` shifted
      left by 8 bits for each of the `n % 4` bytes the top word holds, truncated
      to 32 bits; no bits at all when the top word holds 4 bytes. */
  function ZMask(n: nat): bv32
  {
    if n % 4 > 0 then 0xffffffff << (8 * (n % 4)) else 0
  }

  /** The set-up of `zmask` and `bytesleft` from the string length. */
  method TopMask(b58sz: nat) returns (zmask: bv32, bytesleft: nat)
    ensures zmask == ZMask(b58sz) && bytesleft == Base58.TopBytes(b58sz)
  {
    bytesleft := b58sz % 4;
    zmask := 0;
    if bytesleft > 0 {
      zmask := 0xffffffff << (8 * bytesleft);
    } else {
      bytesleft := 4;
    }
  }

  /** The frozen decoder's loop over the characters: as in the current decoder,
      followed by the two overflow guards, which are proved never to fire. */
  method ReadDigits(str: seq<uint8>, alphabet: Alphabet, outi: array<uint32>, zmask: bv32)
      returns (read: Result<(), DecodeError>)
    requires alphabet.Shaped() && 1 <= |str| && zmask == ZMask(|str|)
    requires outi.Length == (|str| + 3) / 4 && outi[..] == Repeat(0, outi.Length)
    modifies outi
    ensures read.Err? ==> DigitsOf(str, alphabet) == Err(read.error)
    ensures read.Ok? ==> DigitsOf(str, alphabet).Ok?
    ensures read.Ok? ==> ValueOf(outi[..], WordRadix) == ValueOf(DigitsOf(str, alphabet).value, 58)
  {
    assert ValueOf(outi[..], WordRadix) == 0 by {
      ValueOfZeros(outi[..], WordRadix);
    }
    assert str[..0] == [];
    for i := 0 to |str|
      invariant DigitsOf(str[..i], alphabet).Ok?
      invariant ValueOf(outi[..], WordRadix) == ValueOf(DigitsOf(str[..i], alphabet).value, 58)
    {
      var c := str[i];
      if c > 127 {
        DigitsOfStops(str, i, alphabet);
        return Err(NonAsciiDigit);
      }
      if alphabet.decode[c] == -1 {
        DigitsOfStops(str, i, alphabet);
        return Err(InvalidDigit);
      }
      ghost var before := outi[..];
      var digit := alphabet.decode[c] as uint32;
      var carry := AddDigit(outi, digit);
      ReadStep(str, i, alphabet, before, outi[..], carry as nat, outi[0]);
      if carry > 0 {
        return Err(CarryOverflow);
      }
      var over := TopGuard(outi[0], zmask, |str|);
      if over {
        return Err(HighWordOverflow);
      }
    }
    assert str[..|str|] == str;
    read := Ok(());
  }

  /** One character of the frozen decoder's outer loop: nothing is carried
      out of the top word, the words hold the number the digits read so far
      spell, and the top word has no bit under the guard's mask. */
  lemma ReadStep(str: seq<uint8>, i: nat, alphabet: Alphabet, before: seq<nat>, after: seq<nat>, carry: nat, top: uint32)
    requires alphabet.Shaped() && i < |str| && DigitsOf(str[..i], alphabet).Ok? && IsSymbol(str[i], alphabet)
    requires |before| == |after| == (|str| + 3) / 4 && top == after[0]
    requires ValueOf(before, WordRadix) == ValueOf(DigitsOf(str[..i], alphabet).value, 58)
    requires ValueOf(after, WordRadix) + carry * Pow(WordRadix, |before|)
          == ValueOf(before, WordRadix) * 58 + alphabet.decode[str[i]]
    ensures carry == 0 && DigitsOf(str[..i + 1], alphabet).Ok?
    ensures ValueOf(after, WordRadix) == ValueOf(DigitsOf(str[..i + 1], alphabet).value, 58)
    ensures top < Pow(256, Base58.TopBytes(|str|))
  {
    var ds := DigitsOf(str[..i], alphabet).value;
    var d: nat := alphabet.decode[str[i]];
    DigitsOfExtend(str, i, alphabet);
    Base58.NoCarryOut(ds, d, |str|, before, after, carry);
    TopBelow(ds + [d], after, |str|);
  }

  /** The frozen decoder's loop over the words: as in the current decoder,
      except that the carry is `uint32(t >> 32) & 0x3f` and is returned, for
      the guard that follows. */
  method AddDigit(outi: array<uint32>, digit: uint32) returns (c: uint32)
    requires digit < 58
    modifies outi
    ensures ValueOf(outi[..], WordRadix) + c * Pow(WordRadix, outi.Length)
         == ValueOf(old(outi[..]), WordRadix) * 58 + digit
  {
    ghost var before: seq<nat> := outi[..];
    c := digit;
    var j := outi.Length - 1;
    Base58.AddStart(before, digit as nat);
    while j >= 0
      invariant CarryState(outi[..], before, j, c as nat, WordRadix, 58, digit as nat) && c < 58
      decreases j + 1
    {
      c := AddCell(outi, j, c, before, digit as nat);
      j := j - 1;
    }
    CarryFinish(outi[..], before, c as nat, WordRadix, 58, digit as nat);
  }

  /** One word of the frozen `AddDigit`. The carry `t >> 32` is below 58, so
      neither the truncation to 32 bits nor the `& 0x3f` changes it. */
  method AddCell(outi: array<uint32>, j: int, c: uint32, ghost before: seq<nat>, ghost digit: nat) returns (c': uint32)
    requires 0 <= j && CarryState(outi[..], before, j, c as nat, WordRadix, 58, digit) && c < 58
    modifies outi
    ensures CarryState(outi[..], before, j - 1, c' as nat, WordRadix, 58, digit) && c' < 58
  {
    ghost var words: seq<nat> := outi[..];
    var t: uint64 := outi[j] as uint64 * 58 + c as uint64;
    var high := t / WordRadix;
    HighWord(words[j], c as nat, t, high);
    c' := (high % WordRadix % 64) as uint32;
    outi[j] := (t % WordRadix) as uint32;
    CarryCell(words, outi[..], before, j, c as nat, WordRadix, 58, digit, high);
  }

  /** The high half of `w * 58 + c` is a carry below 58, and masking it to
      six bits keeps it whole. */
  lemma HighWord(w: nat, c: nat, t: nat, high: nat)
    requires w < WordRadix && c < 58 && t == w * 58 + c && high == t / WordRadix
    ensures t == c + 58 * w && high < 58 && high % WordRadix % 64 == high
  {
    DivModUnique(t, WordRadix, high, t % WordRadix);
  }

  /** The second guard: `outi[0] & zmask != 0`. It never fires, because the
      top word is below `Pow(256, n % 4)` when `n % 4` is not 0, and so has no
      bit under `ZMask(n)`. */
  method TopGuard(top: uint32, zmask: bv32, ghost n: nat) returns (over: bool)
    requires zmask == ZMask(n) && top < Pow(256, Base58.TopBytes(n))
    ensures !over
  {
    over := (top as bv32) & zmask != 0;
    MaskClear(top, n);
  }

  /** The digits read so far spell a number below `Pow(256, n)`, so the top
      word is below `Pow(256, TopBytes(n))`. */
  lemma TopBelow(ds: seq<nat>, words: seq<nat>, n: nat)
    requires IsDigits(ds, 58) && |ds| <= n && 1 <= n
    requires |words| == (n + 3) / 4 && ValueOf(words, WordRadix) == ValueOf(ds, 58)
    ensures words[0] < Pow(256, Base58.TopBytes(n))
  {
    ValueOfBound(ds, 58);
    PowMonotone(58, |ds|, n);
    PowBaseMonotone(58, 256, n);
    Base58.TopWordBound(words, n);
  }

  lemma MaskClear(w: uint32, n: nat)
    requires w < Pow(256, Base58.TopBytes(n))
    ensures (w as bv32) & ZMask(n) == 0
  {
    if n % 4 == 0 {
      assert ZMask(n) == 0;
    } else if n % 4 == 1 {
      MaskOne(w, n);
    } else if n % 4 == 2 {
      assert Pow(256, 2) == 0x1_0000;
      MaskTwo(w, n);
    } else {
      assert Pow(256, 3) == 0x100_0000;
      MaskThree(w, n);
    }
  }

  lemma MaskOne(w: uint32, n: nat)
    requires n % 4 == 1 && w < 0x100
    ensures (w as bv32) & ZMask(n) == 0
  {
    var x := w as bv32;
    assert x < 0x100 by { BelowOne(w); }
    assert x & (0xffffffff << 8) == 0 by { HighClear(x, 0x100, 8); }
    assert ZMask(n) == 0xffffffff << 8;
  }

  lemma MaskTwo(w: uint32, n: nat)
    requires n % 4 == 2 && w < 0x1_0000
    ensures (w as bv32) & ZMask(n) == 0
  {
    var x := w as bv32;
    assert x < 0x1_0000 by { BelowTwo(w); }
    assert x & (0xffffffff << 16) == 0 by { HighClear(x, 0x1_0000, 16); }
    assert ZMask(n) == 0xffffffff << 16;
  }

  lemma MaskThree(w: uint32, n: nat)
    requires n % 4 == 3 && w < 0x100_0000
    ensures (w as bv32) & ZMask(n) == 0
  {
    var x := w as bv32;
    assert x < 0x100_0000 by { BelowThree(w); }
    assert x & (0xffffffff << 24) == 0 by { HighClear(x, 0x100_0000, 24); }
    assert ZMask(n) == 0xffffffff << 24;
  }

  lemma BelowOne(w: uint32)
    requires w < 0x100
    ensures (w as bv32) < 0x100
  {
  }

  lemma BelowTwo(w: uint32)
    requires w < 0x1_0000
    ensures (w as bv32) < 0x1_0000
  {
  }

  lemma BelowThree(w: uint32)
    requires w < 0x100_0000
    ensures (w as bv32) < 0x100_0000
  {
  }

  /** A word below `1 << s` has no bit set at or above bit `s`. */
  lemma HighClear(x: bv32, b: bv32, s: bv32)
    requires s <= 24 && b == 1 << s && x < b
    ensures x & (0xffffffff << s) == 0
  {
  }

  /** The frozen unpacking loop: the top word gives `bytesleft` bytes, every
      other word 4, so `|str|` bytes in all, the number in big-endian order. */
  method Unpack(outi: array<uint32>, binu: array<uint8>, L: nat, bytesleft: nat) returns (cnt: nat)
    requires 1 <= L <= binu.Length && outi.Length == (L + 3) / 4 && bytesleft == Base58.TopBytes(L)
    requires binu[..] == Repeat(0, binu.Length)
    requires ValueOf(outi[..], WordRadix) < Pow(256, L)
    modifies binu
    ensures cnt == L
    ensures binu[..L] == FixedBytes(ValueOf(outi[..], WordRadix), L)
    ensures forall k :: L <= k < binu.Length ==> binu[k] == 0
  {
    ghost var words: seq<nat> := outi[..];
    Base58.TopWordBound(words, L);
    var bl := bytesleft;
    var j := 0;
    cnt := 0;
    assert words[..0] == [];
    while j < outi.Length
      invariant bl == if j == 0 then Base58.TopBytes(L) else 4
      invariant Base58.UnpackState(binu[..], words, j, cnt, 8 * (bl - 1), L)
    {
      cnt := UnpackStep(outi, binu, j, cnt, bl, words, L);
      if j == 0 {
        bl := 4;
      }
      j := j + 1;
    }
    Base58.UnpackEnd(binu[..], words, cnt, L);
  }

  /** One turn of the frozen unpacking loop; the byte `mask` starts at
      `(bytesleft - 1) * 8`. */
  method UnpackStep(outi: array<uint32>, binu: array<uint8>, j: nat, cnt: nat, bytesleft: nat,
                    ghost words: seq<nat>, ghost L: nat) returns (cnt': nat)
    requires outi[..] == words && j < outi.Length
    requires bytesleft == if j == 0 then Base58.TopBytes(L) else 4
    requires Base58.UnpackState(binu[..], words, j, cnt, 8 * (bytesleft - 1), L)
    requires words[0] < Pow(256, Base58.TopBytes(L))
    modifies binu
    ensures Base58.UnpackState(binu[..], words, j + 1, cnt', 24, L)
  {
    ghost var before := binu[..];
    var mask: uint8 := ((bytesleft - 1) * 8) as uint8;
    Base58.WordReady(before, words, j, cnt, mask as nat, L);
    cnt', mask := UnpackWord(outi[j], binu, cnt, mask, bytesleft, ValueOf(words[..j], WordRadix));
    Base58.UnpackNext(before, binu[..], words, j, cnt', L);
  }

  /** The frozen inner unpacking loop for one word `w` of `n` bytes: `mask` is
      a byte, the loop runs while it is at most 24, and the subtraction below 0
      wraps around to 248 and ends the loop. */
  method UnpackWord(w: uint32, binu: array<uint8>, cnt: nat, mask: uint8, ghost n: nat, ghost P: nat)
      returns (cnt': nat, mask': uint8)
    requires 1 <= n <= 4 && mask as nat == 8 * (n - 1) && w < Pow(256, n)
    requires cnt + n <= binu.Length && ValueOf(binu[..cnt], 256) == P
    modifies binu
    ensures cnt' == cnt + n && mask' > 24
    ensures ValueOf(binu[..cnt'], 256) == P * Pow(256, n) + w
    ensures forall k :: cnt' <= k < binu.Length ==> binu[k] == old(binu[k])
  {
    cnt' := cnt;
    mask' := mask;
    ghost var e := 0;
    Base58.WordStart(binu[..], cnt, mask as nat, 0x100, n, P, w);
    while mask' <= 0x18
      invariant Base58.WordState(binu[..], old(binu[..]), cnt, cnt', mask' as nat, 0x100, e, n, P, w)
      decreases n - e
    {
      cnt', mask' := UnpackCell(binu, cnt', mask', w, e, n, P, cnt, old(binu[..]));
      e := e + 1;
    }
  }

  /** One byte of the frozen inner unpacking loop: `byte(w >> mask)`. */
  method UnpackCell(binu: array<uint8>, cnt: nat, mask: uint8, w: uint32, ghost e: nat, ghost n: nat, ghost P: nat,
                    ghost cnt0: nat, ghost orig: seq<uint8>)
      returns (cnt': nat, mask': uint8)
    requires Base58.WordState(binu[..], orig, cnt0, cnt, mask as nat, 0x100, e, n, P, w) && mask <= 0x18
    modifies binu
    ensures Base58.WordState(binu[..], orig, cnt0, cnt', mask' as nat, 0x100, e + 1, n, P, w)
  {
    ghost var bs := binu[..];
    binu[cnt] := (ShiftRight(w, mask as nat) % 256) as uint8;
    mask' := ((mask as int - 8) % 0x100) as uint8;
    cnt' := cnt + 1;
    Base58.CellStep(bs, binu[..], orig, cnt0, cnt, mask as nat, mask' as nat, 0x100, e, n, P, w);
  }

  /** The frozen trim: the first nonzero byte of the whole buffer, if any, with
      at most `zcount` bytes before it. */
  method Trim(binu: array<uint8>, zcount: nat, cnt: nat) returns (bin: seq<uint8>)
    requires cnt <= binu.Length && forall k :: cnt <= k < binu.Length ==> binu[k] == 0
    ensures bin == TrimClamped(binu[..cnt], zcount)
  {
    for n := 0 to binu.Length
      invariant forall k :: 0 <= k < n ==> binu[k] == 0
    {
      if binu[n] > 0 {
        var start: int := n - zcount;
        if start < 0 {
          start := 0;
        }
        CountLeadingUnique(binu[..cnt], 0, n);
        assert binu[..cnt][start..] == binu[start..cnt];
        return binu[start..cnt];
      }
    }
    CountLeadingUnique(binu[..cnt], 0, cnt);
    return binu[..cnt];
  }

  /** `TrivialBase58DecodingAlphabet`: the zero symbols in front become zero
      bytes, and the digits of the symbols are multiplied into a big integer
      whose minimal bytes follow. The loop that skips padding compares with
      `byte(-1)`, 255, and the digit loop then reads the first `|str| - j`
      characters from index 0. The decode table has 128 entries, so a byte of
      128 or more panics; the panic is the error `NonAsciiDigit` here. */
  method TrivialBase58DecodingAlphabet(str: seq<uint8>, alphabet: Alphabet) returns (r: Result<seq<uint8>, DecodeError>)
    requires alphabet.Shaped()
    ensures r == TrivialDecoding(str, alphabet)
  {
    var zero := alphabet.encode[0];
    var zcount := CountRun(str, zero);
    var leading := Base58.MakeBytes(zcount);

    var padChar: int := -1;
    var pad := (padChar % 0x100) as uint8;
    assert pad == 255;
    var j := CountRun(str, pad);

    var m := |str| - j;
    var n := ReadNumber(str, alphabet, m);
    if n.Err? {
      TrivialDecodingErr(str, alphabet, m, n.error);
      return Err(n.error);
    }
    TrivialDecodingOk(str, alphabet, m, zcount, n.value);
    assert leading[..] == Repeat<uint8>(0, zcount);
    r := Ok(leading[..] + BigBytes(n.value));
  }

  /** The loops of `TrivialBase58DecodingAlphabet` that step over the leading
      zero symbols and the leading padding: how many times `c` opens `str`. */
  method CountRun(str: seq<uint8>, c: uint8) returns (k: nat)
    ensures k == CountLeading(str, c)
  {
    k := 0;
    while k < |str| && str[k] == c
      invariant k <= |str|
      invariant forall i :: 0 <= i < k ==> str[i] == c
    {
      k := k + 1;
    }
    CountLeadingUnique(str, c, k);
  }

  /** The big-integer loop of `TrivialBase58DecodingAlphabet` over the first
      `count` characters: the number their digits spell, or the error for the
      first one outside the alphabet. */
  method ReadNumber(str: seq<uint8>, alphabet: Alphabet, count: nat) returns (n: Result<nat, DecodeError>)
    requires alphabet.Shaped() && count <= |str|
    ensures n.Err? ==> DigitsOf(str[..count], alphabet) == Err(n.error)
    ensures n.Ok? ==> DigitsOf(str[..count], alphabet).Ok?
    ensures n.Ok? ==> n.value == ValueOf(DigitsOf(str[..count], alphabet).value, 58)
  {
    var v: nat := 0;
    assert str[..0] == [];
    for i := 0 to count
      invariant DigitsOf(str[..i], alphabet).Ok?
      invariant v == ValueOf(DigitsOf(str[..i], alphabet).value, 58)
    {
      if str[i] > 127 {
        ReadStops(str, i, count, alphabet);
        return Err(NonAsciiDigit);
      }
      var c := alphabet.decode[str[i]];
      if c == -1 {
        ReadStops(str, i, count, alphabet);
        return Err(InvalidDigit);
      }
      MultiplyStep(str, i, alphabet, v);
      v := v * 58 + c;
    }
    n := Ok(v);
  }

  /** A character that is not a symbol stops the digit loop over the first
      `count` characters. */
  lemma ReadStops(str: seq<uint8>, i: nat, count: nat, alphabet: Alphabet)
    requires alphabet.Shaped() && i < count <= |str| && DigitsOf(str[..i], alphabet).Ok?
    requires !IsSymbol(str[i], alphabet)
    ensures DigitsOf(str[..count], alphabet) == Err(SymbolError(str[i]))
  {
    var p := str[..count];
    assert p[..i] == str[..i];
    DigitsOfStops(p, i, alphabet);
  }

  /** `n.Mul(n, 58); n.Add(n, c)` reads one more symbol into the big integer. */
  lemma MultiplyStep(str: seq<uint8>, i: nat, alphabet: Alphabet, n: nat)
    requires alphabet.Shaped() && i < |str| && IsSymbol(str[i], alphabet)
    requires DigitsOf(str[..i], alphabet).Ok? && n == ValueOf(DigitsOf(str[..i], alphabet).value, 58)
    ensures DigitsOf(str[..i + 1], alphabet).Ok?
    ensures n * 58 + alphabet.decode[str[i]] == ValueOf(DigitsOf(str[..i + 1], alphabet).value, 58)
  {
    var ds := DigitsOf(str[..i], alphabet).value;
    var d: nat := alphabet.decode[str[i]];
    DigitsOfExtend(str, i, alphabet);
    assert (ds + [d])[..|ds|] == ds;
  }
}
