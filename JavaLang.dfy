/** The few pieces of java.lang that News.hashCode relies on: 32-bit int
    arithmetic with wrap-around, String.hashCode over UTF-16 code units, and
    the folding of a 64-bit long into an int. */
module JavaLang {

  import opened Wrappers

  const TwoTo32: int := 0x1_0000_0000
  const TwoTo64: int := 0x1_0000_0000_0000_0000

  /** A Java `int`: a signed two's-complement 32-bit value. */
  type JavaInt = x: int | -0x8000_0000 <= x < 0x8000_0000

  /** A Java `long`: a signed two's-complement 64-bit value. */
  type JavaLong = x: int | -0x8000_0000_0000_0000 <= x < 0x8000_0000_0000_0000

  /** A Java `String` reference, which may be null. */
  type JString = Option<string>

  /** The int that Java's wrapping arithmetic yields for the exact value `x`:
      the unique value in int range congruent to `x` modulo 2^32. */
  function ToJavaInt(x: int): (r: JavaInt)
    ensures (r - x) % TwoTo32 == 0
  {
    var m := x % TwoTo32;
    if m < 0x8000_0000 then m else m - TwoTo32
  }

  /** Two exact values that agree modulo 2^32 wrap to the same int. */
  lemma ToJavaIntCongruent(x: int, y: int)
    requires (x - y) % TwoTo32 == 0
    ensures ToJavaInt(x) == ToJavaInt(y)
  {
    assert x % TwoTo32 == y % TwoTo32 by {
      var q := (x - y) / TwoTo32;
      assert x == y + q * TwoTo32;
    }
  }

  /** Wrapping an intermediate result of `a * x + c` changes nothing: the
      step-by-step wrapping of News.hashCode and String.hashCode equals
      wrapping once at the end. */
  lemma WrapStep(a: int, x: int, c: int)
    ensures ToJavaInt(a * ToJavaInt(x) + c) == ToJavaInt(a * x + c)
  {
    var d := ToJavaInt(x) - x;
    var q := d / TwoTo32;
    assert d == q * TwoTo32;
    assert (a * ToJavaInt(x) + c) - (a * x + c) == (a * q) * TwoTo32 by {
      assert a * ToJavaInt(x) - a * x == a * d;
    }
    ToJavaIntCongruent(a * ToJavaInt(x) + c, a * x + c);
  }

  /** The UTF-16 code units of one Unicode scalar value: itself when it lies in
      the Basic Multilingual Plane, a surrogate pair otherwise. */
  function Utf16Units(c: char): (u: seq<int>)
    ensures 1 <= |u| <= 2
    ensures forall k :: 0 <= k < |u| ==> 0 <= u[k] < 0x1_0000
    ensures |u| == 1 <==> (c as int) < 0x1_0000
  {
    var cp := c as int;
    if cp < 0x1_0000 then [cp]
    else [0xD800 + (cp - 0x1_0000) / 0x400, 0xDC00 + (cp - 0x1_0000) % 0x400]
  }

  /** The `char` sequence of a Java string holding `s`. */
  function Utf16(s: string): seq<int>
  {
    if |s| == 0 then [] else Utf16(s[..|s| - 1]) + Utf16Units(s[|s| - 1])
  }

  /** String.hashCode as the JDK computes it: `h = 31 * h + c` over the code
      units, from h = 0, in wrapping int arithmetic. */
  function UnitsHash(u: seq<int>): JavaInt
  {
    if |u| == 0 then 0 else ToJavaInt(31 * UnitsHash(u[..|u| - 1]) + u[|u| - 1])
  }

  function Pow31(n: nat): int
  {
    if n == 0 then 1 else 31 * Pow31(n - 1)
  }

  /** The polynomial the Java SE documentation gives for String.hashCode,
      u[0]*31^(n-1) + u[1]*31^(n-2) + ... + u[n-1], in exact arithmetic. */
  function HashPolynomial(u: seq<int>): int
  {
    if |u| == 0 then 0 else u[0] * Pow31(|u| - 1) + HashPolynomial(u[1..])
  }

  lemma {:induction false} HashPolynomialSnoc(u: seq<int>, c: int)
    ensures HashPolynomial(u + [c]) == 31 * HashPolynomial(u) + c
  {
    if |u| == 0 {
      assert u + [c] == [c];
      assert [c][1..] == [];
    } else {
      assert (u + [c])[1..] == u[1..] + [c];
      HashPolynomialSnoc(u[1..], c);
      assert Pow31(|u|) == 31 * Pow31(|u| - 1);
      assert u[0] * Pow31(|u|) == 31 * (u[0] * Pow31(|u| - 1));
    }
  }

  /** The JDK's fold equals the documented polynomial, wrapped to an int. */
  lemma {:induction false} UnitsHashIsPolynomial(u: seq<int>)
    ensures UnitsHash(u) == ToJavaInt(HashPolynomial(u))
  {
    if |u| != 0 {
      var init, c := u[..|u| - 1], u[|u| - 1];
      assert u == init + [c];
      UnitsHashIsPolynomial(init);
      WrapStep(31, HashPolynomial(init), c);
      HashPolynomialSnoc(init, c);
    }
  }

  /** String.hashCode of a Java string is the documented polynomial over its
      UTF-16 code units, wrapped to an int; the empty string hashes to 0. */
  function StringHashCode(s: string): (h: JavaInt)
    ensures h == ToJavaInt(HashPolynomial(Utf16(s)))
    ensures s == "" ==> h == 0
  {
    UnitsHashIsPolynomial(Utf16(s));
    UnitsHash(Utf16(s))
  }

  /** Bitwise exclusive or of two non-negative values, bit by bit from the
      least significant one. */
  function Xor(a: nat, b: nat): nat
    decreases a + b
  {
    if a == 0 && b == 0 then 0
    else 2 * Xor(a / 2, b / 2) + (if a % 2 == b % 2 then 0 else 1)
  }

  lemma {:induction false} XorZero(a: nat)
    ensures Xor(a, 0) == a
    decreases a
  {
    if a != 0 {
      XorZero(a / 2);
    }
  }

  /** The 64 bits of a long, read as an unsigned value (two's complement). */
  function LongBits(n: JavaLong): (u: nat)
    ensures u < TwoTo64
  {
    if n < 0 then n + TwoTo64 else n
  }

  function Pow2(k: nat): nat
  {
    if k == 0 then 1 else 2 * Pow2(k - 1)
  }

  lemma {:induction false} Pow2Add(i: nat, j: nat)
    ensures Pow2(i + j) == Pow2(i) * Pow2(j)
    decreases i
  {
    if i != 0 {
      Pow2Add(i - 1, j);
      assert Pow2(i + j) == 2 * Pow2(i - 1 + j);
    }
  }

  lemma Pow2Of32()
    ensures Pow2(32) == TwoTo32
  {
    assert Pow2(2) == 4;
    Pow2Add(2, 2);
    Pow2Add(4, 4);
    Pow2Add(8, 8);
    Pow2Add(16, 16);
  }

  lemma XorUnfold(a: nat, b: nat)
    ensures Xor(a, b) == 2 * Xor(a / 2, b / 2) + (if a % 2 == b % 2 then 0 else 1)
  {
  }

  /** `h` shifted left by k bits, `h * 2^k`. */
  function ShiftUp(h: nat, k: nat): nat
  {
    if k == 0 then h else 2 * ShiftUp(h, k - 1)
  }

  lemma {:induction false} ShiftUpIsProduct(h: nat, k: nat)
    ensures ShiftUp(h, k) == h * Pow2(k)
  {
    if k != 0 {
      ShiftUpIsProduct(h, k - 1);
      assert h * Pow2(k) == 2 * (h * Pow2(k - 1));
    }
  }

  /** Bits at and above position k pass through an exclusive or with a value
      below 2^k unchanged. */
  lemma {:induction false} XorHigh(h: nat, l: nat, m: nat, k: nat)
    requires l < Pow2(k) && m < Pow2(k)
    ensures Xor(ShiftUp(h, k) + l, m) == ShiftUp(h, k) + Xor(l, m)
    decreases k
  {
    if k == 0 {
      XorZero(h);
    } else {
      var s := ShiftUp(h, k - 1);
      assert (2 * s + l) / 2 == s + l / 2 && (2 * s + l) % 2 == l % 2;
      XorHigh(h, l / 2, m / 2, k - 1);
      XorUnfold(2 * s + l, m);
      XorUnfold(l, m);
    }
  }

  /** An exclusive or with k one-bits complements a k-bit value. */
  lemma {:induction false} XorAllOnes(l: nat, k: nat)
    requires l < Pow2(k)
    ensures Xor(l, Pow2(k) - 1) == Pow2(k) - 1 - l
    decreases k
  {
    if k != 0 {
      var p := Pow2(k - 1);
      assert (Pow2(k) - 1) / 2 == p - 1 && (Pow2(k) - 1) % 2 == 1;
      XorAllOnes(l / 2, k - 1);
    }
  }

  /** Folding the 64 bits onto their high half and keeping the low 32 bits is
      the low half exclusive-or the high half. */
  lemma LongHashHalves(u: nat)
    requires u < TwoTo64
    ensures ToJavaInt(Xor(u, u / TwoTo32)) == ToJavaInt(Xor(u % TwoTo32, u / TwoTo32))
  {
    var hi, lo := u / TwoTo32, u % TwoTo32;
    Pow2Of32();
    assert u == hi * TwoTo32 + lo;
    ShiftUpIsProduct(hi, 32);
    XorHigh(hi, lo, hi, 32);
    ToJavaIntCongruent(Xor(u, hi), Xor(lo, hi));
  }

  /** `(int) (n ^ (n >>> 32))`: the high half of the long folded onto the long
      by exclusive or (`>>>` shifts in zeros), then cast to int, which keeps
      the low 32 bits. The result is the low half of the long exclusive-or its
      high half, read as a signed int. */
  function LongHash(n: JavaLong): (h: JavaInt)
    ensures h == ToJavaInt(Xor(LongBits(n) % TwoTo32, LongBits(n) / TwoTo32))
  {
    LongHashHalves(LongBits(n));
    ToJavaInt(Xor(LongBits(n), LongBits(n) / TwoTo32))
  }

  /** A long that fits in the non-negative int range hashes to itself. */
  lemma LongHashOfSmall(n: JavaLong)
    requires 0 <= n < 0x8000_0000
    ensures LongHash(n) == n
  {
    XorZero(n);
  }

  /** A negative long that fits in the int range hashes to its bitwise
      complement `-n - 1`: its high half is all ones. */
  lemma LongHashOfNegative(n: JavaLong)
    requires -0x8000_0000 <= n < 0
    ensures LongHash(n) == -n - 1
  {
    var lo := n + TwoTo32;
    assert LongBits(n) == (TwoTo32 - 1) * TwoTo32 + lo;
    assert LongBits(n) / TwoTo32 == TwoTo32 - 1 && LongBits(n) % TwoTo32 == lo;
    Pow2Of32();
    XorAllOnes(lo, 32);
  }

  /** The character of the decimal digit `d`. */
  function DigitChar(d: nat): char
    requires d < 10
  {
    (48 + d) as char
  }

  /** The decimal digits of `n`, most significant first, without leading
      zeros (a single "0" for zero). */
  function NatText(n: nat): (t: string)
    ensures |t| >= 1
    ensures forall k :: 0 <= k < |t| ==> '0' <= t[k] <= '9'
  {
    if n < 10 then [DigitChar(n)] else NatText(n / 10) + [DigitChar(n % 10)]
  }

  /** `Long.toString(n)`: a minus sign for a negative value, then the decimal
      digits of its magnitude. */
  function LongToString(n: JavaLong): string
  {
    if n < 0 then "-" + NatText(-(n as int)) else NatText(n)
  }

  /** The value of a string of decimal digits, read most significant first. */
  function DigitsValue(s: string): int
  {
    if |s| == 0 then 0 else 10 * DigitsValue(s[..|s| - 1]) + (s[|s| - 1] as int - 48)
  }

  /** `Long.parseLong` on the texts `Long.toString` produces: an optional
      minus sign, then decimal digits. */
  function ParseDecimal(s: string): int
  {
    if |s| > 0 && s[0] == '-' then -DigitsValue(s[1..]) else DigitsValue(s)
  }

  lemma {:induction false} NatTextValue(n: nat)
    ensures DigitsValue(NatText(n)) == n
  {
    if n >= 10 {
      var t := NatText(n / 10);
      assert (t + [DigitChar(n % 10)])[..|t|] == t;
      NatTextValue(n / 10);
    }
  }

  /** The decimal text of a long reads back as the same long. */
  lemma LongToStringRoundTrip(n: JavaLong)
    ensures ParseDecimal(LongToString(n)) == n
  {
    if n < 0 {
      assert ("-" + NatText(-(n as int)))[1..] == NatText(-(n as int));
      NatTextValue(-(n as int));
    } else {
      NatTextValue(n);
    }
  }
}
