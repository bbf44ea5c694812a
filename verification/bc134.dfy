/**
  `bc134` of libcidrips: a 136-bit unsigned counter (the IPv6 address
  count) kept in 17 bytes, byte 0 least significant, with addition modulo
  2^136, a byte-wise comparison and the defined cases of the right shift.
*/
module Bc134 {
  import opened Arith

  /** `BC134_SIZE`. */
  const Size: nat := 17

  /** `bc134_byte_t`, an unsigned char. */
  type Byte = x: nat | x < 256

  /** The numbers n bytes can hold are those below 256^n; a counter's are those below 256^17 = 2^136. */
  function Modulus(n: nat): nat
  {
    Pow(256, n)
  }

  /** The number a byte string stands for, byte 0 least significant. */
  function Value(v: seq<Byte>): nat
  {
    if |v| == 0 then 0 else v[0] + 256 * Value(v[1..])
  }

  predicate AllZero(v: seq<Byte>)
  {
    forall k :: 0 <= k < |v| ==> v[k] == 0
  }

  /** k zero bytes. */
  function Zeros(k: nat): (r: seq<Byte>)
    ensures |r| == k && AllZero(r)
  {
    seq(k, i => 0)
  }

  /** The bytes of n below 256^k, byte 0 least significant: the inverse of Value. */
  function FromValue(n: nat, k: nat): (r: seq<Byte>)
    ensures |r| == k
  {
    if k == 0 then [] else [n % 256] + FromValue(n / 256, k - 1)
  }

  /** k bytes hold a number below 256^k. */
  lemma {:induction false} ValueBelow(v: seq<Byte>)
    ensures Value(v) < Pow(256, |v|)
  {
    if |v| > 0 {
      ValueBelow(v[1..]);
      MulLe(Value(v[1..]) + 1, Pow(256, |v| - 1), 256);
    }
  }

  /** A zero counter is the number 0. */
  lemma {:induction false} ValueOfZero(v: seq<Byte>)
    requires AllZero(v)
    ensures Value(v) == 0
  {
    if |v| > 0 {
      ValueOfZero(v[1..]);
    }
  }

  /** Reading back the bytes of a number below 256^k gives the number. */
  lemma {:induction false} ValueFromValue(n: nat, k: nat)
    requires n < Pow(256, k)
    ensures Value(FromValue(n, k)) == n
  {
    if k > 0 {
      assert n / 256 < Pow(256, k - 1);
      ValueFromValue(n / 256, k - 1);
      assert FromValue(n, k)[1..] == FromValue(n / 256, k - 1);
    }
  }

  /** Byte strings of one length are equal exactly when their numbers are: the bytes of Value(v) are v. */
  lemma {:induction false} FromValueValue(v: seq<Byte>)
    ensures FromValue(Value(v), |v|) == v
  {
    if |v| > 0 {
      FromValueValue(v[1..]);
      var n := Value(v);
      DivUnique(n, 256, Value(v[1..]));
    }
  }

  /** Changing byte j changes the number by the difference at place 256^j. */
  lemma {:induction false} ValueUpdate(v: seq<Byte>, j: nat, b: Byte)
    requires j < |v|
    ensures Value(v[j := b]) + v[j] * Pow(256, j) == Value(v) + b * Pow(256, j)
  {
    if j > 0 {
      ValueUpdate(v[1..], j - 1, b);
      assert v[j := b][1..] == v[1..][j - 1 := b];
    }
  }

  /** x at place 256^i, that is x * 256^i. */
  function Place(x: nat, i: nat): nat
  {
    if i == 0 then x else 256 * Place(x, i - 1)
  }

  lemma {:induction false} PlaceProduct(x: nat, i: nat)
    ensures Place(x, i) == x * Pow(256, i)
  {
    if i > 0 {
      PlaceProduct(x, i - 1);
      assert 256 * (x * Pow(256, i - 1)) == x * (256 * Pow(256, i - 1));
    }
  }

  /** The first i + 1 bytes are the first i and byte i at place 256^i. */
  lemma {:induction false} ValuePrefix(v: seq<Byte>, i: nat)
    requires i < |v|
    ensures Value(v[..i + 1]) == Value(v[..i]) + Place(v[i], i)
  {
    if i > 0 {
      ValuePrefix(v[1..], i - 1);
      assert v[..i + 1][1..] == v[1..][..i];
      assert v[..i][1..] == v[1..][..i - 1];
    }
  }

  /** The remainder of q * m + r by m is r when r is below m. */
  lemma ModBelow(a: nat, m: nat, q: nat, r: nat)
    requires m > 0 && r < m && a == q * m + r
    ensures a % m == r
  {
    DivUnique(a, m, q);
  }

  /** Reducing the first summand modulo m does not change the sum modulo m. */
  lemma ModAddMod(a: nat, x: nat, m: nat)
    requires m > 0
    ensures ((a % m) + x) % m == (a + x) % m
  {
    var s := a % m + x;
    assert a == (a / m) * m + a % m;
    assert s == (s / m) * m + s % m;
    assert a + x == (a / m + s / m) * m + s % m;
    ModBelow(a + x, m, a / m + s / m, s % m);
  }

  /** One step of a carry chain: byte b plus carry t at place p leaves (t + b) % 256 there and carries (t + b) / 256. */
  lemma CarryStep(before: nat, after: nat, t: nat, b: nat, p: nat)
    requires after + b * p == before + ((t + b) % 256) * p
    ensures after + ((t + b) / 256) * (256 * p) == before + t * p
  {
    var s := t + b;
    assert s == (s / 256) * 256 + s % 256;
    assert s * p == (s / 256) * (256 * p) + (s % 256) * p;
    assert s * p == t * p + b * p;
  }

  /**
    The inner loop of `bc134plus`: a carry chain that adds x at place 256^i,
    byte by byte upward, until the carry is zero or the top byte is passed.
    No chain starts when x is zero.
  */
  method AddAt(v: seq<Byte>, i: nat, x: Byte) returns (r: seq<Byte>)
    requires |v| == Size && i < Size
    ensures |r| == Size
    ensures Value(r) == (Value(v) + Place(x, i)) % Modulus(|v|)
    ensures x == 0 ==> r == v
  {
    PlaceProduct(x, i);
    r := v;
    var t: nat := x;
    var j := i;
    while j < Size && t != 0
      invariant i <= j <= Size && |r| == Size
      invariant t <= 255
      invariant Value(r) + t * Pow(256, j) == Value(v) + x * Pow(256, i)
      invariant x == 0 ==> t == 0 && r == v
    {
      // t & 0xff and t >> 8 on a non-negative int
      var s := t + r[j];
      CarryInto(r, j, t);
      r := r[j := s % 256];
      t := s / 256;
      j := j + 1;
    }
    ChainDone(r, t, j, Value(v) + x * Pow(256, i));
  }

  /** Storing (t + r[j]) % 256 at byte j and carrying (t + r[j]) / 256 to place j + 1 keeps the sum. */
  lemma CarryInto(r: seq<Byte>, j: nat, t: nat)
    requires j < |r| && t <= 255
    ensures (t + r[j]) % 256 < 256 && (t + r[j]) / 256 <= 255
    ensures Value(r[j := (t + r[j]) % 256]) + ((t + r[j]) / 256) * Pow(256, j + 1) == Value(r) + t * Pow(256, j)
  {
    var s := t + r[j];
    ValueUpdate(r, j, s % 256);
    CarryStep(Value(r), Value(r[j := s % 256]), t, r[j], Pow(256, j));
  }

  /** A carry chain that stops with carry t at byte j leaves the sum reduced modulo 256^17. */
  lemma ChainDone(r: seq<Byte>, t: nat, j: nat, total: nat)
    requires |r| == Size && j <= Size
    requires j < Size ==> t == 0
    requires Value(r) + t * Pow(256, j) == total
    ensures Value(r) == total % Modulus(|r|)
  {
    ValueBelow(r);
    if t == 0 {
      ModBelow(total, Modulus(|r|), 0, Value(r));
    } else {
      ModBelow(total, Modulus(|r|), t, Value(r));
    }
  }

  /** Adding the next term to a running sum modulo m. */
  lemma SumStep(a: nat, acc: nat, y: nat, m: nat, part: nat, part': nat)
    requires m > 0 && acc == (a + part) % m && part' == part + y
    ensures (acc + y) % m == (a + part') % m
  {
    ModAddMod(a + part, y, m);
  }

  /**
    `bc134plus(v0, v1)`: for each byte i of v1, a carry chain from place i.
    The result is the sum modulo 2^136; v1 is read only, and an all-zero v1
    leaves every byte of v0 as it was.
  */
  method Plus(v0: seq<Byte>, v1: seq<Byte>) returns (r: seq<Byte>)
    requires |v0| == Size && |v1| == Size
    ensures |r| == Size
    ensures Value(r) == (Value(v0) + Value(v1)) % Modulus(|v0|)
    ensures AllZero(v1) ==> r == v0
  {
    r := v0;
    ValueBelow(v0);
    ModBelow(Value(v0), Modulus(|v0|), 0, Value(v0));
    assert v1[..0] == [];
    var i := 0;
    while i < Size
      invariant 0 <= i <= Size && |r| == Size
      invariant Value(r) == (Value(v0) + Value(v1[..i])) % Modulus(|v0|)
      invariant AllZero(v1) ==> r == v0
    {
      ghost var y := Place(v1[i], i);
      ghost var before := Value(r);
      r := AddAt(r, i, v1[i]);
      ValuePrefix(v1, i);
      SumStep(Value(v0), before, y, Modulus(|v0|), Value(v1[..i]), Value(v1[..i + 1]));
      i := i + 1;
    }
    assert v1[..i] == v1;
  }

  /** The scan of `bc134cmp` from byte i upward: the sign of the first differing byte, 0 if none differs. */
  function CmpFrom(a: seq<Byte>, b: seq<Byte>, i: nat): (r: int)
    requires |a| == Size && |b| == Size && i <= Size
    ensures r == -1 || r == 0 || r == 1
    ensures r == 0 <==> a[i..] == b[i..]
    decreases Size - i
  {
    if i == Size then 0
    else if a[i] == b[i] then
      assert a[i..] == [a[i]] + a[i + 1..] && b[i..] == [b[i]] + b[i + 1..];
      CmpFrom(a, b, i + 1)
    else
      assert a[i..][0] != b[i..][0];
      if a[i] > b[i] then 1 else -1
  }

  /** `bc134cmp`: 0 exactly when all 17 bytes agree. */
  function Cmp(a: seq<Byte>, b: seq<Byte>): (r: int)
    requires |a| == Size && |b| == Size
    ensures r == -1 || r == 0 || r == 1
    ensures r == 0 <==> a == b
  {
    assert a[0..] == a && b[0..] == b;
    CmpFrom(a, b, 0)
  }

  /** The lowest index at which two different byte strings differ. */
  function FirstDifference(a: seq<Byte>, b: seq<Byte>, i: nat): (k: nat)
    requires |a| == Size && |b| == Size && i <= Size && a[i..] != b[i..]
    ensures i <= k < Size && a[k] != b[k]
    ensures forall m :: i <= m < k ==> a[m] == b[m]
    decreases Size - i
  {
    if a[i] != b[i] then i
    else
      assert a[i..] == [a[i]] + a[i + 1..] && b[i..] == [b[i]] + b[i + 1..];
      FirstDifference(a, b, i + 1)
  }

  /** A non-zero result of the scan is decided by the first differing byte: 1 when a's byte is larger. */
  lemma {:induction false} CmpFromFirstDifference(a: seq<Byte>, b: seq<Byte>, i: nat)
    requires |a| == Size && |b| == Size && i <= Size && a[i..] != b[i..]
    ensures CmpFrom(a, b, i) == (if a[FirstDifference(a, b, i)] > b[FirstDifference(a, b, i)] then 1 else -1)
    decreases Size - i
  {
    if a[i] == b[i] {
      assert a[i..] == [a[i]] + a[i + 1..] && b[i..] == [b[i]] + b[i + 1..];
      CmpFromFirstDifference(a, b, i + 1);
    }
  }

  /** Swapping the arguments negates the scan. */
  lemma {:induction false} CmpFromAntisymmetric(a: seq<Byte>, b: seq<Byte>, i: nat)
    requires |a| == Size && |b| == Size && i <= Size
    ensures CmpFrom(a, b, i) == -CmpFrom(b, a, i)
    decreases Size - i
  {
    if i < Size && a[i] == b[i] {
      CmpFromAntisymmetric(a, b, i + 1);
    }
  }

  lemma CmpAntisymmetric(a: seq<Byte>, b: seq<Byte>)
    requires |a| == Size && |b| == Size
    ensures Cmp(a, b) == -Cmp(b, a)
  {
    CmpFromAntisymmetric(a, b, 0);
  }

  /** `bc134cmp` decides by byte 0 first, the least significant: 1 and 256 compare the wrong way round. */
  lemma CmpNotNumeric()
    ensures var one := [1] + Zeros(16);
            var big := [0, 1] + Zeros(15);
            Cmp(one, big) == 1 && Value(one) < Value(big)
  {
    var one := [1] + Zeros(16);
    var big := [0, 1] + Zeros(15);
    LowByteDecides(one, big);
    ValueOfLow(1, Zeros(16));
    ValueOfLow(0, [1] + Zeros(15));
    ValueOfLow(1, Zeros(15));
    assert big == [0] + ([1] + Zeros(15));
  }

  /** A counter whose byte 0 is larger compares as larger. */
  lemma LowByteDecides(a: seq<Byte>, b: seq<Byte>)
    requires |a| == Size && |b| == Size && a[0] > b[0]
    ensures Cmp(a, b) == 1
  {
    assert a[0..] != b[0..];
  }

  /** Byte x followed by zero bytes, or by the bytes of n, stands for x + 256 * n. */
  lemma ValueOfLow(x: Byte, rest: seq<Byte>)
    ensures Value([x] + rest) == x + 256 * Value(rest)
    ensures AllZero(rest) ==> Value([x] + rest) == x
  {
    assert ([x] + rest)[1..] == rest;
    if AllZero(rest) {
      ValueOfZero(rest);
    }
  }

  /** The comparison the counter needs to be ordered by its number: the first n bytes compared from byte n - 1 down. */
  function CmpHigh(a: seq<Byte>, b: seq<Byte>, n: nat): (r: int)
    requires |a| == Size && |b| == Size && n <= Size
    ensures r == -1 || r == 0 || r == 1
  {
    if n == 0 then 0
    else if a[n - 1] == b[n - 1] then CmpHigh(a, b, n - 1)
    else if a[n - 1] > b[n - 1] then 1 else -1
  }

  function Sign(x: int): int
  {
    if x > 0 then 1 else if x < 0 then -1 else 0
  }

  /** A larger digit at place p outweighs anything below p. */
  lemma Outweighs(x: nat, y: nat, p: nat, lx: nat, ly: nat)
    requires x > y && ly < p
    ensures lx + x * p > ly + y * p
  {
    MulLe(y + 1, x, p);
    assert (y + 1) * p == y * p + p;
  }

  /** Comparing from the most significant byte down is comparing the numbers of the first n bytes. */
  lemma {:induction false} CmpHighNumeric(a: seq<Byte>, b: seq<Byte>, n: nat)
    requires |a| == Size && |b| == Size && n <= Size
    ensures CmpHigh(a, b, n) == Sign(Value(a[..n]) - Value(b[..n]))
  {
    if n > 0 {
      var p := Pow(256, n - 1);
      var la, lb := Value(a[..n - 1]), Value(b[..n - 1]);
      assert Value(a[..n]) == la + a[n - 1] * p && la < p by {
        ValuePrefix(a, n - 1);
        PlaceProduct(a[n - 1], n - 1);
        ValueBelow(a[..n - 1]);
      }
      assert Value(b[..n]) == lb + b[n - 1] * p && lb < p by {
        ValuePrefix(b, n - 1);
        PlaceProduct(b[n - 1], n - 1);
        ValueBelow(b[..n - 1]);
      }
      if a[n - 1] == b[n - 1] {
        CmpHighNumeric(a, b, n - 1);
      } else if a[n - 1] > b[n - 1] {
        Outweighs(a[n - 1], b[n - 1], p, la, lb);
      } else {
        Outweighs(b[n - 1], a[n - 1], p, lb, la);
      }
    }
  }

  /** The corrected comparison: the sign of the difference of the two counters' numbers. */
  function CmpNumeric(a: seq<Byte>, b: seq<Byte>): (r: int)
    requires |a| == Size && |b| == Size
    ensures r == Sign(Value(a) - Value(b))
  {
    CmpHighNumeric(a, b, Size);
    assert a[..Size] == a && b[..Size] == b;
    CmpHigh(a, b, Size)
  }

  /** 256^k is 2^(8k). */
  lemma {:induction false} PowOf256(k: nat)
    ensures Pow(256, k) == Pow2(8 * k)
  {
    if k > 0 {
      PowOf256(k - 1);
      Pow2Add(8, 8 * (k - 1));
      Pow2Of8();
    }
  }

  /** `max(0, x)`. */
  function Max0(x: int): nat
  {
    if x > 0 then x else 0
  }

  /** A counter holds 136 bits. */
  lemma CounterBits()
    ensures Modulus(Size) == Pow2(136)
  {
    PowOf256(Size);
  }

  /**
    `bc134_rshift(v0, c)` in the cases where it stays inside the buffer:
    c == 0 returns v0; for c >= 135 the shift loop, which starts at index
    134, does not run, and the zero fill clears the bytes from
    max(0, 17 - c / 8) on. For c >= 136 that is every byte and the result
    is v0 / 2^c; for c == 135 the fill starts at byte 1, so byte 0 is kept
    and the result is v0 mod 256.
  */
  function RShift(v: seq<Byte>, c: nat): (r: seq<Byte>)
    requires |v| == Size
    requires c == 0 || c >= 135
    ensures |r| == Size
    ensures c != 135 ==> Value(r) == Value(v) / Pow2(c)
    ensures c == 135 ==> Value(r) == Value(v) % 256
  {
    if c == 0 then v
    else
      var from := Max0(Size - c / 8);
      var r := v[..from] + Zeros(Size - from);
      if c == 135 then
        assert from == 1 && r == [v[0]] + Zeros(16);
        ValueOfLow(v[0], Zeros(16));
        ValueOfLow(v[0], v[1..]);
        assert v == [v[0]] + v[1..];
        ModBelow(Value(v), 256, Value(v[1..]), v[0]);
        r
      else
        assert from == 0 && r == Zeros(Size);
        ValueOfZero(r);
        ValueBelow(v);
        PowOf256(Size);
        Pow2Monotone(136, c);
        DivUnique(Value(v), Pow2(c), 0);
        r
  }

  /** At c == 135 the counter 1 keeps its low byte, where 1 / 2^135 is 0. */
  lemma RShiftAt135()
    ensures var one := [1] + Zeros(16);
      Value(RShift(one, 135)) == 1 && Value(one) / Pow2(135) == 0
  {
    var one: seq<Byte> := [1] + Zeros(16);
    ValueOfLow(1, Zeros(16));
    assert Pow2(135) > 1 by {
      Pow2Monotone(1, 135);
    }
    DivUnique(1, Pow2(135), 0);
  }

  /** The shift the zero fill intends: the counter's number divided by 2^c, for every c. */
  function RShiftIntended(v: seq<Byte>, c: nat): (r: seq<Byte>)
    requires |v| == Size
    ensures |r| == Size
    ensures Value(r) == Value(v) / Pow2(c)
  {
    var q := Quotient(Value(v), Pow2(c));
    ValueBelow(v);
    ValueFromValue(q, Size);
    FromValue(q, Size)
  }

  /** a / d for a positive d, which is a natural number not above a. */
  function Quotient(a: nat, d: nat): (q: nat)
    requires d >= 1
    ensures q == a / d && q <= a
  {
    DivNonNegative(a, d);
    DivBracket(a, d);
    var q := a / d;
    assert q * d == q + q * (d - 1);
    q
  }

  /** Where the loop is right, the shift as written is the intended one. */
  lemma RShiftAgrees(v: seq<Byte>, c: nat)
    requires |v| == Size && (c == 0 || c >= 136)
    ensures RShift(v, c) == RShiftIntended(v, c)
  {
    FromValueValue(RShift(v, c));
    FromValueValue(RShiftIntended(v, c));
  }
}
