/**
 * Go's uint64 arithmetic. A word is held as its eight bytes, least
 * significant first, and stands for the natural number `Value` gives:
 * exclusive-or acts on each byte, a left shift by whole bytes moves the bytes
 * up and drops those shifted out, and addition wraps around modulo 2^64.
 */
module Uint64 {

  import opened Bytes

  const Modulus: nat := 0x1_0000_0000_0000_0000

  /** A uint64 as its eight bytes, least significant first. */
  type uint64 = w: seq<Byte> | |w| == 8 witness [0, 0, 0, 0, 0, 0, 0, 0]

  function Pow256(k: nat): (p: nat)
    ensures p >= 1
  {
    if k == 0 then 1 else 0x100 * Pow256(k - 1)
  }

  /** The `n` low-order bytes of `x`, least significant first. */
  function LittleEndian(x: nat, n: nat): (s: seq<Byte>)
    ensures |s| == n
  {
    if n == 0 then [] else [(x % 0x100) as Byte] + LittleEndian(x / 0x100, n - 1)
  }

  /** The number whose bytes, least significant first, are `s`. */
  function FromLittleEndian(s: seq<Byte>): (x: nat)
    ensures x < Pow256(|s|)
  {
    if s == [] then 0 else s[0] as int + 0x100 * FromLittleEndian(s[1..])
  }

  /** The number a word stands for. */
  function Value(w: uint64): (x: nat)
    ensures x < Modulus
  {
    assert Pow256(8) == Modulus;
    FromLittleEndian(w)
  }

  /** The word that stands for `x`. */
  function Word(x: nat): (w: uint64)
    requires x < Modulus
    ensures Value(w) == x
  {
    assert Pow256(8) == Modulus;
    LittleEndianRoundTrip(x, 8);
    LittleEndian(x, 8)
  }

  function Zeros(n: nat): (z: seq<Byte>)
    ensures |z| == n && forall i | 0 <= i < n :: z[i] == 0
  {
    seq(n, _ => 0)
  }

  const Zero: uint64 := Zeros(8)

  /** uint64(b): a byte widened to a word. */
  function Widen(b: Byte): uint64 {
    seq(8, j => if j == 0 then b else 0)
  }

  /** a ^ b: bitwise exclusive-or, which acts on each byte separately. */
  function Xor(a: uint64, b: uint64): uint64 {
    seq(8, j requires 0 <= j < 8 => XorByte(a[j], b[j]))
  }

  /** x << (8 * k): the bytes moved past the top of the word are lost. */
  function ShiftLeftBytes(x: uint64, k: nat): uint64
    requires k < 8
  {
    seq(8, j requires 0 <= j < 8 => if j < k then 0 else x[j - k])
  }

  /** a + b with wrap-around. */
  function Add(a: uint64, b: uint64): (r: uint64)
    ensures Value(r) == (Value(a) + Value(b)) % Modulus
  {
    Word((Value(a) + Value(b)) % Modulus)
  }

  /** The lanes of a word that holds byte `b` in lane `k` and zero elsewhere. */
  function Lane(b: Byte, k: nat): (s: seq<Byte>)
    requires k < 8
    ensures |s| == 8
  {
    seq(8, j => if j == k then b else 0)
  }

  lemma {:induction false} LittleEndianRoundTrip(x: nat, n: nat)
    requires x < Pow256(n)
    ensures FromLittleEndian(LittleEndian(x, n)) == x
  {
    if n > 0 {
      var s := LittleEndian(x, n);
      assert s[1..] == LittleEndian(x / 0x100, n - 1);
      DivisionBound(x, Pow256(n - 1));
      LittleEndianRoundTrip(x / 0x100, n - 1);
      assert s[0] as int == x % 0x100;
    }
  }

  lemma {:induction false} FromLittleEndianRoundTrip(s: seq<Byte>)
    ensures LittleEndian(FromLittleEndian(s), |s|) == s
  {
    if s != [] {
      var x := FromLittleEndian(s);
      var rest := FromLittleEndian(s[1..]);
      assert x % 0x100 == s[0] as int && x / 0x100 == rest by {
        DivMod(s[0] as int, rest);
      }
      assert (x % 0x100) as Byte == s[0];
      FromLittleEndianRoundTrip(s[1..]);
      assert LittleEndian(x, |s|) == [s[0]] + LittleEndian(rest, |s| - 1);
      assert [s[0]] + s[1..] == s;
    }
  }

  /** Different words stand for different numbers. */
  lemma ValueInjective(a: uint64, b: uint64)
    ensures Value(a) == Value(b) <==> a == b
  {
    FromLittleEndianRoundTrip(a);
    FromLittleEndianRoundTrip(b);
  }

  lemma {:induction false} ZerosValue(n: nat)
    ensures FromLittleEndian(Zeros(n)) == 0
  {
    if n > 0 {
      assert Zeros(n)[1..] == Zeros(n - 1);
      ZerosValue(n - 1);
    }
  }

  lemma WidenValue(b: Byte)
    ensures Value(Widen(b)) == b as int
  {
    assert Widen(b) == [b] + Zeros(7);
    ZerosValue(7);
  }

  lemma XorZeroLeft(x: uint64)
    ensures Xor(Zero, x) == x
  {
    forall j | 0 <= j < 8
      ensures Xor(Zero, x)[j] == x[j]
    {
      XorZero(x[j]);
    }
  }

  lemma DivMod(lo: nat, hi: nat)
    requires lo < 0x100
    ensures (lo + 0x100 * hi) % 0x100 == lo && (lo + 0x100 * hi) / 0x100 == hi
  {
  }

  lemma DivisionBound(x: nat, p: nat)
    requires x < 0x100 * p
    ensures x / 0x100 < p
  {
  }

  /** Euclidean division is unique: a quotient and remainder that fit determine `x % d`. */
  lemma ModUnique(x: nat, d: int, q: nat, r: nat)
    requires 0 <= r < d && x == q * d + r
    ensures x % d == r
  {
    var q2, r2 := x / d, x % d;
    assert (q2 - q) * d == r - r2;
    MultipleBelow(q2 - q, d);
  }

  /** The only multiple of d strictly between -d and d is 0. */
  lemma MultipleBelow(k: int, d: int)
    requires d > 0 && -d < k * d < d
    ensures k == 0
  {
  }

  /** Low bytes: the first m bytes stand for the value modulo 256^m. */
  lemma {:induction false} PrefixValue(s: seq<Byte>, m: nat)
    requires m <= |s|
    ensures FromLittleEndian(s[..m]) == FromLittleEndian(s) % Pow256(m)
  {
    if m == 0 {
      ModUnique(FromLittleEndian(s), 1, FromLittleEndian(s), 0);
    } else {
      var x := FromLittleEndian(s[1..]);
      var p := Pow256(m - 1);
      PrefixValue(s[1..], m - 1);
      assert s[..m][1..] == s[1..][..m - 1];
      LowDigitMod(FromLittleEndian(s), s[0] as int, x, p, FromLittleEndian(s[..m]));
    }
  }

  /** Taking the value modulo 256p keeps the low digit and the rest modulo p. */
  lemma LowDigitMod(whole: nat, b: int, x: nat, p: nat, low: nat)
    requires 0 <= b < 0x100 && p >= 1
    requires whole == b + 0x100 * x && low == b + 0x100 * (x % p)
    ensures low == whole % (0x100 * p)
  {
    Regroup(b, x, x / p, p, x % p);
    LowDigitBound(b, x % p, p);
    ModUnique(whole, 0x100 * p, x / p, low);
  }

  lemma Regroup(b: int, x: int, q: int, p: int, r: int)
    requires x == q * p + r
    ensures b + 0x100 * x == q * (0x100 * p) + (b + 0x100 * r)
  {
  }

  lemma LowDigitBound(b: int, r: int, p: int)
    requires 0 <= b < 0x100 && 0 <= r < p
    ensures b + 0x100 * r < 0x100 * p
  {
  }

  /** k zero bytes below `s` multiply its value by 256^k. */
  lemma {:induction false} ShiftedValue(s: seq<Byte>, k: nat)
    ensures FromLittleEndian(Zeros(k) + s) == Pow256(k) * FromLittleEndian(s)
  {
    if k > 0 {
      var t := Zeros(k) + s;
      assert t[1..] == Zeros(k - 1) + s;
      assert t[0] == 0;
      assert FromLittleEndian(t) == 0x100 * FromLittleEndian(t[1..]);
      ShiftedValue(s, k - 1);
      MulAssoc(0x100, Pow256(k - 1), FromLittleEndian(s));
    } else {
      assert Zeros(k) + s == s;
    }
  }

  lemma MulAssoc(a: int, b: int, c: int)
    ensures a * (b * c) == (a * b) * c
  {
  }

  lemma Pow256Split(k: nat)
    requires k <= 8
    ensures Pow256(k) * Pow256(8 - k) == Modulus
  {
    Pow256Add(k, 8 - k);
    assert Pow256(8) == Modulus;
  }

  lemma {:induction false} Pow256Add(j: nat, k: nat)
    ensures Pow256(j) * Pow256(k) == Pow256(j + k)
  {
    if j > 0 {
      Pow256Add(j - 1, k);
      MulAssoc(0x100, Pow256(j - 1), Pow256(k));
    }
  }

  /** The shift is Go's: x << 8k is x * 256^k with the bits past 2^64 dropped. */
  lemma ShiftLeftBytesValue(x: uint64, k: nat)
    requires k < 8
    ensures Value(ShiftLeftBytes(x, k)) == (Value(x) * Pow256(k)) % Modulus
  {
    var p := Pow256(k);
    var q := Pow256(8 - k);
    var v := Value(x);
    var low := FromLittleEndian(x[..8 - k]);
    assert Value(ShiftLeftBytes(x, k)) == p * low by {
      ShiftedBytes(x, k);
      ShiftedValue(x[..8 - k], k);
    }
    assert low == v % q by {
      PrefixValue(x, 8 - k);
    }
    assert (v * p) % Modulus == (v % q) * p by {
      Pow256Split(k);
      ScaledMod(v, p, q);
    }
  }

  /** A whole-byte shift puts k zero bytes below the low 8 - k bytes. */
  lemma ShiftedBytes(x: uint64, k: nat)
    requires k < 8
    ensures ShiftLeftBytes(x, k) == Zeros(k) + x[..8 - k]
  {
    var z := Zeros(k) + x[..8 - k];
    forall j | 0 <= j < 8
      ensures ShiftLeftBytes(x, k)[j] == z[j]
    {
      if j >= k {
        assert z[j] == x[..8 - k][j - k];
      }
    }
  }

  /** (v * p) mod (p * q) is p times (v mod q). */
  lemma ScaledMod(v: nat, p: nat, q: nat)
    requires p >= 1 && q >= 1
    ensures (v * p) % (p * q) == (v % q) * p
  {
    Scale(v, v / q, q, v % q, p);
    ScaleBound(v % q, q, p);
    ModUnique(v * p, p * q, v / q, (v % q) * p);
  }

  lemma Scale(v: int, a: int, q: int, r: int, p: int)
    requires v == a * q + r
    ensures v * p == a * (p * q) + r * p
  {
  }

  lemma ScaleBound(r: int, q: int, p: int)
    requires 0 <= r < q && p > 0
    ensures 0 <= r * p < p * q
  {
  }

  /** A byte shifted left by 8k bits (k < 8) sits alone in lane k. */
  lemma ShiftedByteLanes(b: Byte, k: nat)
    requires k < 8
    ensures ShiftLeftBytes(Widen(b), k) == Lane(b, k)
  {
  }

  /** Shifting by zero bytes changes nothing. */
  lemma ShiftByZero(x: uint64)
    ensures ShiftLeftBytes(x, 0) == x
  {
  }

  /** Adding a word of value zero changes nothing. */
  lemma AddZero(a: uint64, z: uint64)
    requires Value(z) == 0
    ensures Add(a, z) == a
  {
    var v := Value(a);
    assert (v + Value(z)) % Modulus == v by {
      ModUnique(v, Modulus, 0, v);
    }
    ValueInjective(Add(a, z), a);
  }

  /** The zero word has value 0. */
  lemma ZeroValue()
    ensures Value(Zero) == 0
  {
    ZerosValue(8);
  }

  /** Byte 0 widens to the zero word. */
  lemma WidenZero()
    ensures Widen(0) == Zero
  {
  }

  /** Shifting the zero word leaves it zero. */
  lemma ShiftZero(k: nat)
    requires k < 8
    ensures ShiftLeftBytes(Zero, k) == Zero
  {
    assert forall j | 0 <= j < 8 :: ShiftLeftBytes(Zero, k)[j] == 0;
  }

  /** Words with no lane in common add without a carry: the sum is their exclusive-or. */
  lemma AddDisjoint(a: uint64, b: uint64)
    requires forall j | 0 <= j < 8 :: a[j] == 0 || b[j] == 0
    ensures Add(a, b) == Xor(a, b)
  {
    var x := Xor(a, b);
    forall j | 0 <= j < 8
      ensures (a[j] == 0 && x[j] == b[j]) || (b[j] == 0 && x[j] == a[j])
    {
      XorZero(a[j]);
      XorZero(b[j]);
    }
    DisjointValue(a, b, x);
    ModUnique(Value(a) + Value(b), Modulus, 0, Value(x));
    ValueInjective(Add(a, b), x);
  }

  /** Byte strings that share no non-zero position: the merged string stands for the sum. */
  lemma {:induction false} DisjointValue(a: seq<Byte>, b: seq<Byte>, x: seq<Byte>)
    requires |a| == |b| == |x|
    requires forall j | 0 <= j < |x| :: (a[j] == 0 && x[j] == b[j]) || (b[j] == 0 && x[j] == a[j])
    ensures FromLittleEndian(x) == FromLittleEndian(a) + FromLittleEndian(b)
  {
    if x != [] {
      DisjointValue(a[1..], b[1..], x[1..]);
    }
  }
}
