/** Positional notation over natural numbers: powers, the value of a digit
    string read most significant digit first, the minimal digit string of a
    number and its fixed-width digit string. Both converters of the codec are
    statements about these three notions in base 256 (bytes), base 58
    (symbols) and base 2^32 (the decoder's words). */
module Numeric {

  /** Go's `byte`. */
  type uint8 = x: nat | x < 0x100

  /** Go's `uint32`. */
  type uint32 = x: nat | x < 0x1_0000_0000

  /** Go's `uint64`. */
  type uint64 = x: nat | x < 0x1_0000_0000_0000_0000

  /** 2^32, the radix of a `uint32` word. */
  const WordRadix: nat := 0x1_0000_0000

  function Pow(b: nat, n: nat): nat
  {
    if n == 0 then 1 else b * Pow(b, n - 1)
  }

  /** Every element of `s` is a digit of the given base. */
  predicate IsDigits(s: seq<nat>, base: nat)
  {
    forall i :: 0 <= i < |s| ==> s[i] < base
  }

  function Repeat<T>(x: T, n: nat): seq<T>
  {
    seq(n, _ => x)
  }

  /** The number that `s` denotes in the given base, most significant digit first
      (big-endian); the empty string denotes 0. */
  function ValueOf(s: seq<nat>, base: nat): nat
  {
    if s == [] then 0 else ValueOf(s[..|s| - 1], base) * base + s[|s| - 1]
  }

  /** The minimal digit string of `n`: no leading zero digit, empty for 0. */
  function ToDigits(n: nat, base: nat): (r: seq<nat>)
    requires 2 <= base
    ensures IsDigits(r, base)
    ensures ValueOf(r, base) == n
    ensures r == [] <==> n == 0
    ensures r != [] ==> r[0] != 0
    decreases n
  {
    if n == 0 then []
    else
      DivLess(n, base);
      var q, d := n / base, n % base;
      var p := ToDigits(q, base);
      var r := p + [d];
      assert r[..|r| - 1] == p;
      DivModSplit(n, base);
      assert ValueOf(r, base) == n;
      assert q == 0 ==> d != 0;
      assert p != [] ==> r[0] == p[0];
      r
  }

  /** The `k` least significant digits of `n`, most significant first. */
  function ToFixed(n: nat, base: nat, k: nat): (r: seq<nat>)
    requires 2 <= base
    ensures |r| == k && IsDigits(r, base)
  {
    if k == 0 then [] else ToFixed(n / base, base, k - 1) + [n % base]
  }

  /** The length of the longest prefix of `s` made only of `x`. */
  function CountLeading<T(==)>(s: seq<T>, x: T): (n: nat)
    ensures n <= |s|
    ensures forall i :: 0 <= i < n ==> s[i] == x
    ensures n < |s| ==> s[n] != x
  {
    if s == [] || s[0] != x then 0 else 1 + CountLeading(s[1..], x)
  }

  // ---------------------------------------------------------------------------
  // Powers

  lemma {:induction false} PowAdd(b: nat, m: nat, n: nat)
    ensures Pow(b, m + n) == Pow(b, m) * Pow(b, n)
    decreases n
  {
    if n > 0 {
      PowAdd(b, m, n - 1);
      calc {
        Pow(b, m + n);
        b * Pow(b, m + n - 1);
        b * (Pow(b, m) * Pow(b, n - 1));
        Pow(b, m) * (b * Pow(b, n - 1));
      }
    }
  }

  lemma {:induction false} PowPositive(b: nat, n: nat)
    requires 1 <= b
    ensures 1 <= Pow(b, n)
  {
    if n > 0 {
      PowPositive(b, n - 1);
      assert b * Pow(b, n - 1) >= 1 * Pow(b, n - 1);
    }
  }

  lemma {:induction false} PowMonotone(b: nat, m: nat, n: nat)
    requires 1 <= b && m <= n
    ensures Pow(b, m) <= Pow(b, n)
    decreases n
  {
    if m < n {
      PowMonotone(b, m, n - 1);
      PowPositive(b, n - 1);
      assert b * Pow(b, n - 1) >= 1 * Pow(b, n - 1);
    }
  }

  lemma {:induction false} PowBaseMonotone(a: nat, b: nat, n: nat)
    requires a <= b
    ensures Pow(a, n) <= Pow(b, n)
  {
    if n > 0 {
      PowBaseMonotone(a, b, n - 1);
      MulMonotone(a, Pow(a, n - 1), b, Pow(b, n - 1));
    }
  }

  lemma MulMonotone(a: nat, x: nat, b: nat, y: nat)
    requires a <= b && x <= y
    ensures a * x <= b * y
  {
    assert a * x <= b * x;
  }

  lemma MulCancelLess(x: nat, y: nat, b: nat)
    requires x * b < y * b
    ensures x < y
  {
    MulMonotone(y, b, if x >= y then x else y, b);
  }

  /** `n` is its quotient times the divisor plus its remainder. */
  lemma DivModSplit(n: nat, b: nat)
    requires 0 < b
    ensures n / b * b + n % b == n && n % b < b
  {
  }

  /** Euclidean division is determined by quotient and remainder. */
  lemma DivModUnique(a: nat, b: nat, q: nat, r: nat)
    requires 0 < b && r < b && a == q * b + r
    ensures a / b == q && a % b == r
  {
    var q', r' := a / b, a % b;
    assert (q' + 1) * b == q' * b + b;
    assert (q + 1) * b == q * b + b;
    MulCancelLess(q, q' + 1, b);
    MulCancelLess(q', q + 1, b);
  }

  lemma DivLess(n: nat, b: nat)
    requires 1 <= n && 2 <= b
    ensures n / b < n
  {
    MulMonotone(n / b, 2, n / b, b);
  }

  /** Dropping the last digit of a number of `k` digits leaves `k - 1` digits. */
  lemma DivPow(n: nat, b: nat, k: nat)
    requires 1 <= b && 1 <= k && n < Pow(b, k)
    ensures n / b < Pow(b, k - 1)
  {
    MulCancelLess(n / b, Pow(b, k - 1), b);
  }

  /** A word of `k` bytes spans `Pow(2^32, k)`: 2^32 is 256^4. */
  lemma {:induction false} WordPow(k: nat)
    ensures Pow(WordRadix, k) == Pow(256, 4 * k)
  {
    if k > 0 {
      WordPow(k - 1);
      PowAdd(256, 4, 4 * (k - 1));
      assert Pow(256, 4) == WordRadix;
    }
  }

  /** A right shift by whole bytes is a division by a power of 256. */
  lemma {:induction false} BytePow(k: nat)
    ensures Pow(2, 8 * k) == Pow(256, k)
  {
    if k > 0 {
      BytePow(k - 1);
      PowAdd(2, 8, 8 * (k - 1));
      assert Pow(2, 8) == 256;
    }
  }

  /** Go's `x >> k` on an unsigned integer. */
  function ShiftRight(x: nat, k: nat): nat
  {
    PowPositive(2, k);
    x / Pow(2, k)
  }

  /** One more byte of shift is one more division by 256. */
  lemma ShiftRightByte(x: nat, k: nat)
    ensures ShiftRight(x, 8 * k + 8) == ShiftRight(x, 8 * k) / 256
  {
    PowPositive(2, 8 * k);
    PowAdd(2, 8 * k, 8);
    assert Pow(2, 8) == 256;
    DivDiv(x, Pow(2, 8 * k), 256);
  }

  /** Dividing twice is dividing by the product. */
  lemma DivDiv(n: nat, b: nat, c: nat)
    requires 0 < b && 0 < c
    ensures n / b / c == n / (b * c)
  {
    var q, r1 := n / b, n % b;
    var q2, r2 := q / c, q % c;
    DivModSplit(n, b);
    DivModSplit(q, c);
    var low := NestedRemainder(n, b, c, q, r1, q2, r2);
    DivModUnique(n, b * c, q2, low);
  }

  /** Two divisions with remainder nest into one by the product. */
  lemma NestedRemainder(n: nat, b: nat, c: nat, q: nat, r1: nat, q2: nat, r2: nat) returns (low: nat)
    requires r1 < b && r2 < c && n == q * b + r1 && q == q2 * c + r2
    ensures low == b * r2 + r1 && low < b * c && n == q2 * (b * c) + low
  {
    MulMonotone(0, 0, b, r2);
    low := b * r2 + r1;
    calc {
      n;
      q * b + r1;
      (q2 * c + r2) * b + r1;
      { assert (q2 * c + r2) * b == q2 * c * b + r2 * b; }
      q2 * c * b + r2 * b + r1;
      { assert q2 * c * b == q2 * (b * c); }
      q2 * (b * c) + low;
    }
    MulMonotone(b, r2, b, c - 1);
    assert b * (c - 1) == b * c - b;
  }

  // ---------------------------------------------------------------------------
  // Values of digit strings

  lemma {:induction false} ValueOfConcat(a: seq<nat>, b: seq<nat>, base: nat)
    ensures ValueOf(a + b, base) == ValueOf(a, base) * Pow(base, |b|) + ValueOf(b, base)
    decreases |b|
  {
    if b == [] {
      assert a + b == a;
    } else {
      var b' := b[..|b| - 1];
      assert (a + b)[..|a + b| - 1] == a + b';
      ValueOfConcat(a, b', base);
      ShiftAdd(ValueOf(a, base), Pow(base, |b'|), ValueOf(b', base), base, b[|b| - 1]);
    }
  }

  /** Appending a digit to `x * p + y` shifts both parts. */
  lemma ShiftAdd(x: nat, p: nat, y: nat, base: nat, d: nat)
    ensures (x * p + y) * base + d == x * (base * p) + (y * base + d)
  {
  }

  /** The leading digit of `s` weighs `Pow(base, |s| - 1)`. */
  lemma ValueOfCons(s: seq<nat>, base: nat)
    requires s != []
    ensures ValueOf(s, base) == s[0] * Pow(base, |s| - 1) + ValueOf(s[1..], base)
  {
    assert s == [s[0]] + s[1..];
    ValueOfConcat([s[0]], s[1..], base);
    assert [s[0]][..0] == [];
  }

  lemma {:induction false} ValueOfBound(s: seq<nat>, base: nat)
    requires IsDigits(s, base)
    ensures ValueOf(s, base) < Pow(base, |s|)
    decreases |s|
  {
    if s != [] {
      var p := s[..|s| - 1];
      ValueOfBound(p, base);
      AppendBound(ValueOf(p, base), Pow(base, |p|), s[|s| - 1], base);
    }
  }

  /** A number below `p` with one more digit appended stays below `p * base`. */
  lemma AppendBound(v: nat, p: nat, d: nat, base: nat)
    requires v < p && d < base
    ensures v * base + d < p * base
  {
    MulMonotone(v + 1, base, p, base);
  }

  lemma {:induction false} ValueOfZeros(s: seq<nat>, base: nat)
    requires forall i :: 0 <= i < |s| ==> s[i] == 0
    ensures ValueOf(s, base) == 0
    decreases |s|
  {
    if s != [] {
      ValueOfZeros(s[..|s| - 1], base);
    }
  }

  /** Leading zero digits do not change the value. */
  lemma ValueOfDropZeros(s: seq<nat>, k: nat, base: nat)
    requires k <= |s|
    requires forall i :: 0 <= i < k ==> s[i] == 0
    ensures ValueOf(s, base) == ValueOf(s[k..], base)
  {
    assert s == s[..k] + s[k..];
    ValueOfConcat(s[..k], s[k..], base);
    ValueOfZeros(s[..k], base);
  }

  /** A digit string with a nonzero leading digit denotes a positive number. */
  lemma ValueOfPositive(s: seq<nat>, base: nat)
    requires 1 <= base && s != [] && s[0] != 0
    ensures ValueOf(s, base) > 0
  {
    ValueOfCons(s, base);
    PowPositive(base, |s| - 1);
    assert s[0] * Pow(base, |s| - 1) >= 1 * Pow(base, |s| - 1);
  }

  // ---------------------------------------------------------------------------
  // Minimal and fixed-width digit strings

  /** A digit string without a leading zero is the minimal digit string of its value. */
  lemma {:induction false} ToDigitsUnique(s: seq<nat>, base: nat)
    requires 2 <= base && IsDigits(s, base)
    requires s == [] || s[0] != 0
    ensures ToDigits(ValueOf(s, base), base) == s
    decreases |s|
  {
    if s != [] {
      var p := s[..|s| - 1];
      var d := s[|s| - 1];
      var n := ValueOf(s, base);
      ValueOfPositive(s, base);
      DivModUnique(n, base, ValueOf(p, base), d);
      ToDigitsUnique(p, base);
      assert s == p + [d];
    }
  }

  /** Every digit string is its leading zeros followed by the minimal digit string of its value. */
  lemma StripLeadingZeros(s: seq<nat>, base: nat)
    requires 2 <= base && IsDigits(s, base)
    ensures s[CountLeading(s, 0)..] == ToDigits(ValueOf(s, base), base)
    ensures ValueOf(s, base) == ValueOf(s[CountLeading(s, 0)..], base)
  {
    var z := CountLeading(s, 0);
    ValueOfDropZeros(s, z, base);
    ToDigitsUnique(s[z..], base);
  }

  /** A number below `Pow(base, k)` has at most `k` digits. */
  lemma {:induction false} ToDigitsLength(n: nat, base: nat, k: nat)
    requires 2 <= base && n < Pow(base, k)
    ensures |ToDigits(n, base)| <= k
    decreases n
  {
    if n > 0 {
      assert k > 0;
      DivPow(n, base, k);
      DivLess(n, base);
      ToDigitsLength(n / base, base, k - 1);
    }
  }

  lemma {:induction false} ToFixedZero(base: nat, k: nat)
    requires 2 <= base
    ensures ToFixed(0, base, k) == Repeat(0, k)
  {
    if k > 0 {
      ToFixedZero(base, k - 1);
      assert 0 / base == 0 && 0 % base == 0;
      assert Repeat(0, k - 1) + [0] == Repeat(0, k);
    }
  }

  /** A number of at most `k` digits has the minimal digit string, padded with zeros,
      as its `k`-digit string. */
  lemma {:induction false} ToFixedPadded(n: nat, base: nat, k: nat)
    requires 2 <= base && n < Pow(base, k)
    ensures |ToDigits(n, base)| <= k
    ensures ToFixed(n, base, k) == Repeat(0, k - |ToDigits(n, base)|) + ToDigits(n, base)
    decreases n
  {
    ToDigitsLength(n, base, k);
    if n == 0 {
      ToFixedZero(base, k);
      assert ToDigits(n, base) == [];
      assert Repeat(0, k) + [] == Repeat(0, k);
    } else {
      DivPow(n, base, k);
      DivLess(n, base);
      var high, low := ToDigits(n / base, base), [n % base];
      assert ToDigits(n, base) == high + low;
      ToFixedPadded(n / base, base, k - 1);
      var pad := Repeat(0, k - |ToDigits(n, base)|);
      assert pad == Repeat(0, k - 1 - |high|);
      calc {
        ToFixed(n, base, k);
        ToFixed(n / base, base, k - 1) + low;
        pad + high + low;
        pad + ToDigits(n, base);
      }
    }
  }

  /** A digit string is the fixed-width string of its own value. */
  lemma {:induction false} ToFixedUnique(s: seq<nat>, base: nat)
    requires 2 <= base && IsDigits(s, base)
    ensures ToFixed(ValueOf(s, base), base, |s|) == s
    decreases |s|
  {
    if s != [] {
      var p := s[..|s| - 1];
      var n := ValueOf(s, base);
      DivModUnique(n, base, ValueOf(p, base), s[|s| - 1]);
      ToFixedUnique(p, base);
      assert s == p + [s[|s| - 1]];
    }
  }

  /** The loop that counts leading copies of `x` stops at `CountLeading`. */
  lemma CountLeadingUnique<T>(s: seq<T>, x: T, n: nat)
    requires n <= |s| && forall i :: 0 <= i < n ==> s[i] == x
    requires n < |s| ==> s[n] != x
    ensures CountLeading(s, x) == n
  {
  }

  /** A string that starts with `k` copies of `x` and then something else
      has exactly `k` leading copies of `x`. */
  lemma CountLeadingPrefix<T>(x: T, k: nat, rest: seq<T>)
    requires rest == [] || rest[0] != x
    ensures CountLeading(Repeat(x, k) + rest, x) == k
  {
    var s := Repeat(x, k) + rest;
    assert forall i :: 0 <= i < k ==> s[i] == x;
    assert k < |s| ==> s[k] == rest[0];
  }

  /** Leading zeros do not change a value. */
  lemma ValueOfPadded(z: nat, D: seq<nat>, base: nat)
    ensures ValueOf(Repeat(0, z) + D, base) == ValueOf(D, base)
  {
    var ds := Repeat(0, z) + D;
    ValueOfDropZeros(ds, z, base);
    assert ds[z..] == D;
  }

  /** A string whose first `k` elements are `x` is `k` copies of `x` and the rest. */
  lemma SplitLeading<T>(s: seq<T>, x: T, k: nat)
    requires k <= |s| && forall i :: 0 <= i < k ==> s[i] == x
    ensures s == Repeat(x, k) + s[k..]
  {
    assert forall i :: 0 <= i < |s| ==> s[i] == (Repeat(x, k) + s[k..])[i];
  }

  /** Dropping all but `z` of `p` leading copies of `x`. */
  lemma DropLeading<T>(x: T, p: nat, z: nat, rest: seq<T>)
    requires z <= p
    ensures (Repeat(x, p) + rest)[p - z..] == Repeat(x, z) + rest
  {
    var s := Repeat(x, p) + rest;
    assert forall i :: 0 <= i < |s| - (p - z) ==> s[p - z..][i] == (Repeat(x, z) + rest)[i];
  }

  /** Strings that have `x` and `y` at the same positions have as many leading `x` as `y`. */
  lemma {:induction false} CountLeadingSame<S, T>(s: seq<S>, x: S, t: seq<T>, y: T)
    requires |s| == |t|
    requires forall i :: 0 <= i < |s| ==> (s[i] == x <==> t[i] == y)
    ensures CountLeading(s, x) == CountLeading(t, y)
  {
    if s != [] {
      CountLeadingSame(s[1..], x, t[1..], y);
    }
  }

  // ---------------------------------------------------------------------------
  // Carry loops

  /** One step of a multiply-and-carry loop that runs from the least significant
      position up. Before the step, the cells already processed (`rest`) and the
      pending `carry` at weight `P` equal `restOld * mul + add`; the step splits
      `carry + mul * d`, with `d` the next cell, into a new cell `digit` and the
      carry `next` to the position above. After it, the same equation holds one
      cell further up. */
  lemma CarryStep(rest: nat, restOld: nat, carry: nat, d: nat, P: nat, Q: nat, mul: nat, add: nat, base: nat,
                  digit: nat, next: nat, v: nat, vOld: nat)
    requires digit + next * base == carry + mul * d && Q == base * P
    requires rest + carry * P == restOld * mul + add
    requires v == digit * P + rest && vOld == d * P + restOld
    ensures v + next * Q == vOld * mul + add
  {
    calc {
      v + next * Q;
      digit * P + rest + next * (base * P);
      (digit + next * base) * P + rest;
      (carry + mul * d) * P + rest;
      carry * P + rest + mul * d * P;
      (d * P + restOld) * mul + add;
    }
  }

  /** `CarryStep` on digit strings: the new cell `digit` goes in front of the
      processed cells and the carry moves one position up. */
  lemma CarryDigitStep(tail: seq<nat>, tailOld: seq<nat>, carry: nat, d: nat, mul: nat, add: nat, base: nat, digit: nat, next: nat)
    requires |tail| == |tailOld| && digit + next * base == carry + mul * d
    requires ValueOf(tail, base) + carry * Pow(base, |tail|) == ValueOf(tailOld, base) * mul + add
    ensures ValueOf([digit] + tail, base) + next * Pow(base, |tail| + 1) == ValueOf([d] + tailOld, base) * mul + add
  {
    var P := Pow(base, |tail|);
    var Q := Pow(base, |tail| + 1);
    assert Q == base * P;
    ValueOfPrepend(digit, tail, base);
    ValueOfPrepend(d, tailOld, base);
    CarryStep(ValueOf(tail, base), ValueOf(tailOld, base), carry, d, P, Q, mul, add, base, digit, next,
              ValueOf([digit] + tail, base), ValueOf([d] + tailOld, base));
  }

  /** A digit put in front of `tail` weighs `Pow(base, |tail|)`. */
  lemma ValueOfPrepend(x: nat, tail: seq<nat>, base: nat)
    ensures ValueOf([x] + tail, base) == x * Pow(base, |tail|) + ValueOf(tail, base)
  {
    ValueOfCons([x] + tail, base);
    assert ([x] + tail)[1..] == tail;
  }

  /** The invariant of a loop that multiplies the digit string `before` by `mul`
      and adds `add`, rewriting it in place from the least significant cell up;
      `cur` is the string so far and `j` the next cell to rewrite. The cells up
      to `j` are untouched, every cell is a digit, and the rewritten cells plus
      the pending carry, weighted by the position it will land in, are worth
      the same cells of `before` times `mul` plus `add`. */
  ghost predicate CarryState(cur: seq<nat>, before: seq<nat>, j: int, carry: nat, base: nat, mul: nat, add: nat)
  {
    -1 <= j < |cur| == |before| && IsDigits(cur, base)
    && (forall k :: 0 <= k <= j ==> cur[k] == before[k])
    && ValueOf(cur[j + 1..], base) + carry * Pow(base, |cur| - 1 - j) == ValueOf(before[j + 1..], base) * mul + add
  }

  /** Before any cell is rewritten the carry is `add` itself. */
  lemma CarryStart(before: seq<nat>, base: nat, mul: nat, add: nat)
    requires IsDigits(before, base)
    ensures CarryState(before, before, |before| - 1, add, base, mul, add)
  {
    assert before[|before|..] == [];
  }

  /** Rewriting cell `j` of `t` with `(c + mul * t[j]) % base` and carrying
      `(c + mul * t[j]) / base` moves the invariant one cell up. */
  lemma CarryCell(t: seq<nat>, u: seq<nat>, before: seq<nat>, j: nat, c: nat, base: nat, mul: nat, add: nat, carry: nat)
    requires 0 < base && CarryState(t, before, j, c, base, mul, add)
    requires u == t[j := (c + mul * t[j]) % base] && carry == (c + mul * t[j]) / base
    ensures CarryState(u, before, j - 1, carry, base, mul, add)
  {
    var tail := t[j + 1..];
    assert u[j..] == [u[j]] + tail;
    assert before[j..] == [t[j]] + before[j + 1..];
    var x := c + mul * t[j];
    assert x % base + x / base * base == x;
    CarryDigitStep(tail, before[j + 1..], c, t[j], mul, add, base, x % base, x / base);
  }

  /** Once every cell is rewritten, the whole string plus the carry out of the
      top is the product. */
  lemma CarryFinish(cur: seq<nat>, before: seq<nat>, carry: nat, base: nat, mul: nat, add: nat)
    requires CarryState(cur, before, -1, carry, base, mul, add)
    ensures ValueOf(cur, base) + carry * Pow(base, |cur|) == ValueOf(before, base) * mul + add
  {
    assert cur[0..] == cur && before[0..] == before;
  }

  /** A carry left over above the top cell would make the value reach `P`. */
  lemma CarryVanishes(rest: nat, carry: nat, P: nat, x: nat)
    requires rest + carry * P == x && x < P
    ensures carry == 0
  {
    MulMonotone(if carry == 0 then 0 else 1, P, carry, P);
  }
}
