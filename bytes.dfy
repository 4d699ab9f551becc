/** Big-endian conversions between non-negative integers and byte strings, as
    both AES.py and RSA.py use them: `int.from_bytes(s, 'big')`,
    `x.to_bytes(n, 'big')`, the minimal encoding `to_bytes` of RSA.py:6-10 (also
    written out inline at AES.py:316), and Python's `^` on integers. */
module Bytes {
  import opened NumberTheory

  /** A Python byte: an integer in 0..255. */
  type byte = x: int | 0 <= x < 256

  datatype Option<T> = None | Some(value: T)

  /** int.from_bytes(s, byteorder='big') */
  function FromBytes(s: seq<byte>): nat
  {
    if s == [] then 0 else FromBytes(s[..|s| - 1]) * 256 + s[|s| - 1]
  }

  /** The `n` low-order base-256 digits of x, most significant first. */
  function Digits(x: nat, n: nat): (s: seq<byte>)
    ensures |s| == n
  {
    if n == 0 then [] else Digits(x / 256, n - 1) + [x % 256]
  }

  /** x.to_bytes(n, byteorder='big'): None where Python raises OverflowError. */
  function ToFixedBytes(x: nat, n: nat): (r: Option<seq<byte>>)
    ensures r.Some? <==> x < Pow(256, n)
    ensures r.Some? ==> |r.value| == n && FromBytes(r.value) == x
  {
    if x < Pow(256, n) then
      DigitsValue(x, n);
      Some(Digits(x, n))
    else None
  }

  /** The number of bits of x: Python's int.bit_length(). */
  function BitLength(x: nat): (n: nat)
    ensures x == 0 <==> n == 0
  {
    if x == 0 then 0 else 1 + BitLength(x / 2)
  }

  /** The length of the minimal encoding: the least n >= 1 with x < 256^n. */
  function ByteLength(x: nat): (n: nat)
    ensures n >= 1
  {
    if x < 256 then 1 else 1 + ByteLength(x / 256)
  }

  /** to_bytes(x) of RSA.py:10, i.e. x.to_bytes(max(1, ceil(x.bit_length() / 8))). */
  function ToBytes(x: nat): (s: seq<byte>)
    ensures |s| == ByteLength(x)
  {
    Digits(x, ByteLength(x))
  }

  /** Python's `a ^ b` on non-negative integers, one bit at a time. */
  function XorInt(a: nat, b: nat): nat
    decreases a + b
  {
    if a == 0 && b == 0 then 0
    else 2 * XorInt(a / 2, b / 2) + (if a % 2 == b % 2 then 0 else 1)
  }

  /** `a ^ b` on two bytes is a byte. */
  function Xor(a: byte, b: byte): (r: byte)
  {
    XorIntByteBound(a, b, 1);
    XorInt(a, b)
  }

  // ---------------------------------------------------------------------------
  // Encoding lemmas

  /** n bytes hold values below 256^n. */
  lemma {:induction false} FromBytesBound(s: seq<byte>)
    ensures FromBytes(s) < Pow(256, |s|)
  {
    if s != [] {
      FromBytesBound(s[..|s| - 1]);
    }
  }

  /** x has n bits: 2^(n-1) <= x < 2^n. */
  lemma {:induction false} BitLengthBounds(x: nat)
    ensures x < Pow(2, BitLength(x))
    ensures BitLength(x) > 0 ==> Pow(2, BitLength(x) - 1) <= x
  {
    if x > 0 {
      BitLengthBounds(x / 2);
    }
  }

  /** The minimal byte length n is the least n >= 1 with x < 256^n. */
  lemma {:induction false} ByteLengthBounds(x: nat)
    ensures x < Pow(256, ByteLength(x))
    ensures ByteLength(x) > 1 ==> Pow(256, ByteLength(x) - 1) <= x
  {
    if x >= 256 {
      ByteLengthBounds(x / 256);
    }
  }

  /** Encoding a value that fits and decoding it gives the value back. */
  lemma {:induction false} DigitsValue(x: nat, n: nat)
    requires x < Pow(256, n)
    ensures FromBytes(Digits(x, n)) == x
  {
    if n > 0 {
      var s := Digits(x, n);
      assert s[..n - 1] == Digits(x / 256, n - 1);
      DigitsValue(x / 256, n - 1);
    }
  }

  /** Decoding a string and encoding the value at the same length gives the string back. */
  lemma {:induction false} DigitsOfFromBytes(s: seq<byte>)
    ensures Digits(FromBytes(s), |s|) == s
  {
    if s != [] {
      var n := |s|;
      var x := FromBytes(s);
      assert x / 256 == FromBytes(s[..n - 1]) && x % 256 == s[n - 1];
      DigitsOfFromBytes(s[..n - 1]);
      assert s == s[..n - 1] + [s[n - 1]];
    }
  }

  /** Two encodings of the same length and value are the same string. */
  lemma FromBytesInjective(s: seq<byte>, t: seq<byte>)
    requires |s| == |t| && FromBytes(s) == FromBytes(t)
    ensures s == t
  {
    DigitsOfFromBytes(s);
    DigitsOfFromBytes(t);
  }

  /** The value of a string split after its first byte. */
  lemma {:induction false} FromBytesFront(s: seq<byte>)
    requires |s| > 0
    ensures FromBytes(s) == s[0] * Pow(256, |s| - 1) + FromBytes(s[1..])
  {
    var n := |s|;
    if n > 1 {
      var t := s[..n - 1];
      var u := s[1..];
      assert t[0] == s[0];
      assert u[..n - 2] == t[1..];
      assert u[n - 2] == s[n - 1];
      FromBytesFront(t);
      ShiftDigit(FromBytes(t), s[0], Pow(256, n - 2), FromBytes(t[1..]), s[n - 1]);
    } else {
      assert s[..0] == [];
    }
  }

  lemma ShiftDigit(f: int, d: int, p: int, g: int, last: int)
    requires f == d * p + g
    ensures f * 256 + last == d * (256 * p) + (g * 256 + last)
  {
  }

  /** A byte string with a non-zero byte has a positive value. */
  lemma {:induction false} FromBytesPositive(s: seq<byte>, j: nat)
    requires j < |s| && s[j] != 0
    ensures FromBytes(s) > 0
  {
    if j < |s| - 1 {
      FromBytesPositive(s[..|s| - 1], j);
    }
  }

  /** Leading zero bytes do not change the value. */
  lemma LeadingZero(s: seq<byte>)
    ensures FromBytes([0] + s) == FromBytes(s)
  {
    var t := [0] + s;
    FromBytesFront(t);
    assert t[1..] == s;
    assert t[0] == 0;
    ZeroTimes(Pow(256, |t| - 1));
  }

  /** A string whose first byte is nonzero is as long as the minimal encoding of its value. */
  lemma ByteLengthOfFromBytes(s: seq<byte>)
    requires |s| > 0 && (s[0] != 0 || |s| == 1)
    ensures ByteLength(FromBytes(s)) == |s|
  {
    var x := FromBytes(s);
    if |s| > 1 {
      var p := Pow(256, |s| - 1);
      FromBytesFront(s);
      PowPositive(256, |s| - 1);
      MulAtLeast(s[0], p);
      assert p <= x;
    }
    FromBytesBound(s);
    ByteLengthBounds(x);
    MinimalLengthUnique(x, ByteLength(x), |s|);
  }

  lemma ZeroTimes(p: int)
    ensures 0 * p == 0
  {
  }

  lemma MulAtLeast(a: int, b: int)
    requires a >= 1 && b >= 0
    ensures a * b >= b
  {
  }

  /** At most one length n >= 1 has 256^(n-1) <= x < 256^n (or n == 1 and x < 256). */
  lemma MinimalLengthUnique(x: nat, n: nat, m: nat)
    requires n >= 1 && x < Pow(256, n) && (n > 1 ==> Pow(256, n - 1) <= x)
    requires m >= 1 && x < Pow(256, m) && (m > 1 ==> Pow(256, m - 1) <= x)
    ensures n == m
  {
    if n < m {
      if n <= m - 1 - 1 { PowMonotone(256, n, m - 1); }
    } else if m < n {
      if m <= n - 1 - 1 { PowMonotone(256, m, n - 1); }
    }
  }

  /** 256^n needs n + 1 bytes. */
  lemma {:induction false} ByteLengthOfPow(n: nat)
    ensures Pow(256, n) > 0 && ByteLength(Pow(256, n)) == n + 1
  {
    PowPositive(256, n);
    if n > 0 {
      var p := Pow(256, n - 1);
      ByteLengthOfPow(n - 1);
      assert Pow(256, n) == 256 * p;
      assert (256 * p) / 256 == p;
    }
  }

  /** to_bytes gives back the value it encodes: int.from_bytes(to_bytes(x)) == x. */
  lemma ToBytesValue(x: nat)
    ensures FromBytes(ToBytes(x)) == x
  {
    ByteLengthBounds(x);
    DigitsValue(x, ByteLength(x));
  }

  /** The minimal encoding of a positive value starts with a nonzero byte. */
  lemma ToBytesLeadingByte(x: nat)
    requires x > 0
    ensures ToBytes(x)[0] != 0
  {
    var s := ToBytes(x);
    var p := Pow(256, |s| - 1);
    ByteLengthBounds(x);
    ToBytesValue(x);
    FromBytesFront(s);
    FromBytesBound(s[1..]);
    assert FromBytes(s[1..]) < p;
    assert s[0] * p > 0;
  }

  /** to_bytes inverts int.from_bytes exactly on minimal encodings. */
  lemma ToBytesOfFromBytes(s: seq<byte>)
    requires |s| > 0 && (s[0] != 0 || |s| == 1)
    ensures ToBytes(FromBytes(s)) == s
  {
    ByteLengthOfFromBytes(s);
    DigitsOfFromBytes(s);
  }

  /** The byte length is max(1, ceil(bit_length / 8)), the expression of RSA.py:10. */
  lemma ByteLengthFromBits(x: nat)
    ensures ByteLength(x) == if BitLength(x) == 0 then 1 else (BitLength(x) + 7) / 8
  {
    var b := BitLength(x);
    var n := if b == 0 then 1 else (b + 7) / 8;
    BitsBelow(x, n);
    if n > 1 {
      BitsAbove(x, n - 1);
    }
    ByteLengthBounds(x);
    MinimalLengthUnique(x, ByteLength(x), n);
  }

  lemma BitsBelow(x: nat, n: nat)
    requires BitLength(x) <= 8 * n
    ensures x < Pow(256, n)
  {
    BitLengthBounds(x);
    Pow256IsPow2(n);
    PowMonotoneLe(2, BitLength(x), 8 * n);
  }

  lemma BitsAbove(x: nat, n: nat)
    requires 0 < 8 * n < BitLength(x)
    ensures Pow(256, n) <= x
  {
    BitLengthBounds(x);
    Pow256IsPow2(n);
    PowMonotoneLe(2, 8 * n, BitLength(x) - 1);
  }

  lemma PowMonotoneLe(b: int, m: nat, n: nat)
    requires b > 1 && m <= n
    ensures Pow(b, m) <= Pow(b, n)
  {
    if m < n {
      PowMonotone(b, m, n);
    }
  }

  lemma Pow256IsPow2(n: nat)
    ensures Pow(256, n) == Pow(2, 8 * n)
  {
    assert Pow(2, 8) == 256;
    PowMul(2, 8, n);
  }

  // ---------------------------------------------------------------------------
  // Integer XOR

  lemma {:induction false} XorIntZero(a: nat)
    ensures XorInt(a, 0) == a
  {
    if a != 0 {
      XorIntZero(a / 2);
    }
  }

  /** XOR with the same mask twice restores the value. */
  lemma {:induction false} XorIntInvolution(a: nat, b: nat)
    ensures XorInt(XorInt(a, b), b) == a
    decreases a + b
  {
    var c := XorInt(a, b);
    if b == 0 {
      XorIntZero(a);
      XorIntZero(c);
    } else {
      XorIntInvolution(a / 2, b / 2);
      assert c / 2 == XorInt(a / 2, b / 2);
    }
  }

  /** XOR of two values below 2^n is below 2^n. */
  lemma {:induction false} XorIntBound(a: nat, b: nat, n: nat)
    requires a < Pow(2, n) && b < Pow(2, n)
    ensures XorInt(a, b) < Pow(2, n)
  {
    if a == 0 && b == 0 {
      PowPositive(2, n);
    } else {
      XorIntBound(a / 2, b / 2, n - 1);
    }
  }

  /** The same bound for byte lengths: XOR never lengthens the encoding. */
  lemma XorIntByteBound(a: nat, b: nat, n: nat)
    requires a < Pow(256, n) && b < Pow(256, n)
    ensures XorInt(a, b) < Pow(256, n)
  {
    Pow256IsPow2(n);
    XorIntBound(a, b, 8 * n);
  }

  /** The low bit and the remaining bits of a XOR. */
  lemma XorIntDigits(a: nat, b: nat)
    ensures XorInt(a, b) / 2 == XorInt(a / 2, b / 2)
    ensures XorInt(a, b) % 2 == if a % 2 == b % 2 then 0 else 1
  {
  }

  lemma {:induction false} XorIntComm(a: nat, b: nat)
    ensures XorInt(a, b) == XorInt(b, a)
    decreases a + b
  {
    if a != 0 || b != 0 {
      XorIntComm(a / 2, b / 2);
    }
  }

  lemma {:induction false} XorIntAssoc(a: nat, b: nat, c: nat)
    ensures XorInt(XorInt(a, b), c) == XorInt(a, XorInt(b, c))
    decreases a + b + c
  {
    var l := XorInt(XorInt(a, b), c);
    var r := XorInt(a, XorInt(b, c));
    if a == 0 && b == 0 && c == 0 {
    } else {
      XorIntDigits(a, b);
      XorIntDigits(b, c);
      XorIntDigits(XorInt(a, b), c);
      XorIntDigits(a, XorInt(b, c));
      XorIntAssoc(a / 2, b / 2, c / 2);
      assert l / 2 == r / 2 && l % 2 == r % 2;
    }
  }
}
