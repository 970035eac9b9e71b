/** alphabet.go: a base58 alphabet is a table of 58 symbols (`encode`, digit value
    to symbol) and a 128-entry table from ASCII code to digit value (`decode`,
    -1 for codes that are not symbols). Go's `Alphabet` is never changed after
    `NewAlphabet` fills it, so it is a value here. */
module Alphabets {

  import opened Numeric
  import opened Results

  datatype Alphabet = Alphabet(decode: seq<int>, encode: seq<uint8>)
  {
    /** What every alphabet built by `NewAlphabet`, in either version, satisfies:
        58 ASCII symbols and the decode table they determine. */
    predicate Shaped()
    {
      |encode| == 58 && IsAscii(encode) && decode == DecodeTable(encode)
    }

    /** What the current `NewAlphabet` guarantees on top of that: no symbol twice. */
    predicate Valid()
    {
      Shaped() && Distinct(encode)
    }
  }

  /** Why `NewAlphabet` panics. */
  datatype AlphabetError =
    | WrongLength       // not 58 bytes long
    | NonAsciiSymbol    // a byte of 128 or more indexes past the decode table
    | DuplicateSymbols  // fewer than 58 distinct bytes

  predicate IsAscii(s: seq<nat>)
  {
    forall i :: 0 <= i < |s| ==> s[i] < 128
  }

  predicate Distinct<T(==)>(s: seq<T>)
  {
    forall i, j :: 0 <= i < j < |s| ==> s[i] != s[j]
  }

  /** The position of the last occurrence of `c` in `s`, or -1 when `c` does not occur. */
  function LastIndex(s: seq<nat>, c: nat): (r: int)
    ensures -1 <= r < |s|
    ensures r == -1 <==> c !in s
    ensures r != -1 ==> s[r] == c && forall k :: r < k < |s| ==> s[k] != c
  {
    if s == [] then -1
    else if s[|s| - 1] == c then |s| - 1
    else
      assert forall k :: 0 <= k < |s| - 1 ==> s[k] == s[..|s| - 1][k];
      LastIndex(s[..|s| - 1], c)
  }

  /** The decode table that `NewAlphabet` builds from the symbols `s`: writing
      `decode[s[i]] = i` for i = 0, 1, ... leaves each entry at the last position
      of its code in `s`, and at -1 where the code does not occur. */
  function DecodeTable(s: seq<nat>): (t: seq<int>)
    ensures |t| == 128
    ensures forall c :: 0 <= c < 128 ==> -1 <= t[c] < |s|
  {
    seq(128, c requires 0 <= c < 128 => LastIndex(s, c))
  }

  /** The decode table of distinct symbols inverts the encode table, and every
      entry other than -1 names a symbol that encodes back to its code. */
  lemma DecodeTableInverts(s: seq<nat>)
    requires Distinct(s) && IsAscii(s)
    ensures forall i :: 0 <= i < |s| ==> DecodeTable(s)[s[i]] == i
    ensures forall c :: 0 <= c < 128 && DecodeTable(s)[c] != -1 ==> s[DecodeTable(s)[c]] == c
  {
    forall i | 0 <= i < |s|
      ensures DecodeTable(s)[s[i]] == i
    {
      assert s[i] in s;
    }
  }

  /** `NewAlphabet` (current version): accepts exactly the strings of 58 distinct
      ASCII bytes, and builds the encode table from the bytes as given and the
      decode table from their positions. Panics become errors, in the order the
      code meets them: the length first, then the first byte of 128 or more
      (the write to `decode[b]` is out of range), then the distinct count. */
  method NewAlphabet(s: seq<uint8>) returns (r: Result<Alphabet, AlphabetError>)
    ensures |s| != 58 ==> r == Err(WrongLength)
    ensures |s| == 58 && !IsAscii(s) ==> r == Err(NonAsciiSymbol)
    ensures |s| == 58 && IsAscii(s) && !Distinct(s) ==> r == Err(DuplicateSymbols)
    ensures |s| == 58 && IsAscii(s) && Distinct(s) ==> r == Ok(Alphabet(DecodeTable(s), s))
  {
    if |s| != 58 {
      return Err(WrongLength);
    }
    var encode := s;
    var decode := new int[128];
    for c := 0 to 128
      invariant forall c' :: 0 <= c' < c ==> decode[c'] == -1
    {
      decode[c] := -1;
    }
    var distinct := 0;
    TableStart(encode, decode[..]);
    for i := 0 to 58
      invariant TableState(encode, i, decode[..], distinct)
    {
      var b := encode[i];
      if b >= 128 {
        return Err(NonAsciiSymbol);
      }
      ghost var t := decode[..];
      ghost var d := distinct;
      if decode[b] == -1 {
        distinct := distinct + 1;
      }
      decode[b] := i;
      TableStep(encode, i, t, d, decode[..], distinct);
    }
    assert encode[..58] == s;
    if distinct != 58 {
      return Err(DuplicateSymbols);
    }
    assert decode[..] == DecodeTable(s);
    r := Ok(Alphabet(decode[..], encode));
  }

  /** The table after the first `i` symbols have been written into it: they
      are ASCII and each entry holds the last position of its code among them. */
  ghost predicate TableFilled(s: seq<uint8>, i: nat, t: seq<int>)
  {
    i <= |s| && |t| == 128 && IsAscii(s[..i])
    && forall c :: 0 <= c < 128 ==> t[c] == LastIndex(s[..i], c)
  }

  /** The invariant of `NewAlphabet`'s main loop after `i` symbols: the table
      is filled so far, and `distinct` counts the codes seen, which equals `i`
      exactly when no symbol came twice. */
  ghost predicate TableState(s: seq<uint8>, i: nat, t: seq<int>, distinct: nat)
  {
    TableFilled(s, i, t) && distinct <= i && (distinct == i <==> Distinct(s[..i]))
  }

  lemma TableStart(s: seq<uint8>, t: seq<int>)
    requires |t| == 128 && forall c :: 0 <= c < 128 ==> t[c] == -1
    ensures TableState(s, 0, t, 0)
  {
    assert s[..0] == [];
  }

  /** Writing `t[s[i]] := i` fills the table one symbol further on. */
  lemma TableFill(s: seq<uint8>, i: nat, t: seq<int>, t': seq<int>)
    requires i < |s| && s[i] < 128 && TableFilled(s, i, t) && t' == t[s[i] := i]
    ensures TableFilled(s, i + 1, t')
  {
    var p := s[..i];
    var q := s[..i + 1];
    assert q == p + [s[i]] && q[..i] == p;
    forall c | 0 <= c < 128
      ensures t'[c] == LastIndex(q, c)
    {
    }
  }

  /** Writing `t[s[i]] := i`, and counting `s[i]` when its entry was still -1,
      keeps the invariant one symbol further on. */
  lemma TableStep(s: seq<uint8>, i: nat, t: seq<int>, distinct: nat, t': seq<int>, distinct': nat)
    requires i < |s| && s[i] < 128 && TableState(s, i, t, distinct)
    requires t' == t[s[i] := i] && distinct' == if t[s[i]] == -1 then distinct + 1 else distinct
    ensures TableState(s, i + 1, t', distinct')
  {
    TableFill(s, i, t, t');
    var p := s[..i];
    assert s[..i + 1] == p + [s[i]];
    assert t[s[i]] == -1 <==> s[i] !in p;
    DistinctAppend(p, s[i]);
  }

  lemma DistinctAppend<T>(p: seq<T>, x: T)
    ensures Distinct(p + [x]) <==> Distinct(p) && x !in p
  {
    var q := p + [x];
    if x in p {
      var k :| 0 <= k < |p| && p[k] == x;
      assert q[k] == q[|p|];
    }
    assert forall i :: 0 <= i < |p| ==> q[i] == p[i];
  }

  /** The symbols from `lo` to `hi`, both included, in code order. */
  function Span(lo: char, hi: char): (r: seq<uint8>)
    requires lo <= hi < 128 as char
  {
    seq(hi as int - lo as int + 1, i requires 0 <= i <= hi as int - lo as int => lo as int + i)
  }

  /** The bitcoin symbols "123456789ABCDEFGHJKLMNPQRSTUVWXYZabcdefghijkmnopqrstuvwxyz":
      digits, upper case and lower case without 0, I, O and l. */
  const BtcSymbols: seq<uint8> :=
    Span('1', '9') + Span('A', 'H') + Span('J', 'N') + Span('P', 'Z') + Span('a', 'k') + Span('m', 'z')

  /** The flickr symbols "123456789abcdefghijkmnopqrstuvwxyzABCDEFGHJKLMNPQRSTUVWXYZ":
      the same symbols with the two letter cases swapped in order. */
  const FlickrSymbols: seq<uint8> :=
    Span('1', '9') + Span('a', 'k') + Span('m', 'z') + Span('A', 'H') + Span('J', 'N') + Span('P', 'Z')

  /** The alphabets that `NewAlphabet` builds from the two symbol strings. */
  const BtcAlphabet: Alphabet := Alphabet(DecodeTable(BtcSymbols), BtcSymbols)
  const FlickrAlphabet: Alphabet := Alphabet(DecodeTable(FlickrSymbols), FlickrSymbols)

  /** The digit value of a bitcoin symbol, read off the spans. */
  function BtcDigit(c: int): int
  {
    if c <= '9' as int then c - '1' as int
    else if c <= 'H' as int then c - 'A' as int + 9
    else if c <= 'N' as int then c - 'J' as int + 17
    else if c <= 'Z' as int then c - 'P' as int + 22
    else if c <= 'k' as int then c - 'a' as int + 33
    else c - 'm' as int + 44
  }

  /** The digit value of a flickr symbol, read off the spans. */
  function FlickrDigit(c: int): int
  {
    if c <= '9' as int then c - '1' as int
    else if c <= 'H' as int then c - 'A' as int + 34
    else if c <= 'N' as int then c - 'J' as int + 42
    else if c <= 'Z' as int then c - 'P' as int + 47
    else if c <= 'k' as int then c - 'a' as int + 9
    else c - 'm' as int + 20
  }

  /** Symbols that a function maps back to their positions are distinct. */
  lemma DistinctByIndex(s: seq<uint8>, index: int -> int)
    requires forall i :: 0 <= i < |s| ==> index(s[i]) == i
    ensures Distinct(s)
  {
  }

  /** Both canonical alphabets are valid, with '1' as the zero symbol. */
  lemma CanonicalAlphabetsValid()
    ensures BtcAlphabet.Valid() && BtcSymbols[0] == '1' as int
    ensures FlickrAlphabet.Valid() && FlickrSymbols[0] == '1' as int
  {
    assert forall i :: 0 <= i < 58 ==> BtcDigit(BtcSymbols[i]) == i;
    DistinctByIndex(BtcSymbols, BtcDigit);
    assert forall i :: 0 <= i < 58 ==> FlickrDigit(FlickrSymbols[i]) == i;
    DistinctByIndex(FlickrSymbols, FlickrDigit);
  }

  /** `var BTCAlphabet = NewAlphabet(...)`: package initialisation does not panic. */
  method InitBtcAlphabet() returns (a: Alphabet)
    ensures a == BtcAlphabet && a.Valid()
  {
    CanonicalAlphabetsValid();
    var r := NewAlphabet(BtcSymbols);
    a := r.value;
  }

  /** `var FlickrAlphabet = NewAlphabet(...)`: package initialisation does not panic. */
  method InitFlickrAlphabet() returns (a: Alphabet)
    ensures a == FlickrAlphabet && a.Valid()
  {
    CanonicalAlphabetsValid();
    var r := NewAlphabet(FlickrSymbols);
    a := r.value;
  }
}
