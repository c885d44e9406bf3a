/** Bit strings. The source builds strings of '0' and '1' characters; here a bit string is a
    sequence of `Bit`s, most significant bit first, exactly as `toString(2)` prints them. */
module Bits {

  type Bit = b: int | 0 <= b < 2
  type Byte = b: int | 0 <= b < 256

  function Pow2(n: nat): (r: nat)
    ensures r >= 1
  {
    if n == 0 then 1 else 2 * Pow2(n - 1)
  }

  function Max(a: nat, b: nat): nat { if a < b then b else a }

  function Min(a: int, b: int): int { if a < b then a else b }

  lemma {:induction false} Pow2Add(m: nat, n: nat)
    ensures Pow2(m + n) == Pow2(m) * Pow2(n)
    decreases n
  {
    if n > 0 {
      Pow2Add(m, n - 1);
    }
  }

  lemma {:induction false} Pow2Mono(m: nat, n: nat)
    requires m <= n
    ensures Pow2(m) <= Pow2(n)
    decreases n
  {
    if m < n {
      Pow2Mono(m, n - 1);
    }
  }

  function Zeros(n: nat): (r: seq<Bit>)
    ensures |r| == n && forall i :: 0 <= i < n ==> r[i] == 0
  {
    seq(n, i => 0)
  }

  /** The `w` low-order bits of `v`, most significant first. */
  function ToBits(v: nat, w: nat): (r: seq<Bit>)
    ensures |r| == w
  {
    if w == 0 then [] else ToBits(v / 2, w - 1) + [v % 2]
  }

  /** The value of a big-endian bit string, as `parseInt(bits, 2)` computes it. */
  function FromBits(bs: seq<Bit>): (r: nat)
    ensures r < Pow2(|bs|)
  {
    if bs == [] then 0 else 2 * FromBits(bs[..|bs| - 1]) + bs[|bs| - 1]
  }

  /** A slice's value, one bit longer: twice the shorter slice's value plus the new bit. */
  lemma {:induction false} FromBitsOfLongerSlice(bits: seq<Bit>, lo: nat, hi: nat)
    requires lo <= hi < |bits|
    ensures FromBits(bits[lo..hi + 1]) == 2 * FromBits(bits[lo..hi]) + bits[hi]
  {
    assert bits[lo..hi + 1][..hi - lo] == bits[lo..hi];
  }

  lemma {:induction false} FromToBits(v: nat, w: nat)
    requires v < Pow2(w)
    ensures FromBits(ToBits(v, w)) == v
  {
    if w > 0 {
      var r := ToBits(v, w);
      assert r == ToBits(v / 2, w - 1) + [v % 2];
      assert r[..w - 1] == ToBits(v / 2, w - 1);
      assert v / 2 < Pow2(w - 1);
      FromToBits(v / 2, w - 1);
      assert FromBits(r) == 2 * (v / 2) + v % 2;
    }
  }

  lemma {:induction false} ToFromBits(bs: seq<Bit>)
    ensures ToBits(FromBits(bs), |bs|) == bs
  {
    if bs != [] {
      var init := bs[..|bs| - 1];
      ToFromBits(init);
      assert FromBits(bs) / 2 == FromBits(init);
      assert bs == init + [bs[|bs| - 1]];
    }
  }

  /** Bit `k` of `v` (bit 0 is the least significant), i.e. `(v & (1 << k)) >> k` for k < 32. */
  function BitOf(v: nat, k: nat): Bit
  {
    if k == 0 then v % 2 else BitOf(v / 2, k - 1)
  }

  lemma {:induction false} ToBitsAt(v: nat, w: nat, i: nat)
    requires i < w
    ensures ToBits(v, w)[i] == BitOf(v, w - 1 - i)
  {
    if i < w - 1 {
      ToBitsAt(v / 2, w - 1, i);
    }
  }

  /** The number of digits `n.toString(2)` prints (one for zero). */
  function BinaryLength(n: nat): (r: nat)
    ensures r >= 1
  {
    if n < 2 then 1 else 1 + BinaryLength(n / 2)
  }

  lemma {:induction false} BinaryLengthBound(n: nat, w: nat)
    requires n < Pow2(w) && w >= 1
    ensures BinaryLength(n) <= w
  {
    if n >= 2 {
      BinaryLengthBound(n / 2, w - 1);
    }
  }

  /** `n.toString(2).padStart(w, '0')`: the binary digits of `n`, padded with leading zeros to at
      least `w` digits; a number needing more than `w` digits keeps all of them. */
  function PaddedBinary(n: nat, w: nat): seq<Bit>
  {
    ToBits(n, Max(w, BinaryLength(n)))
  }

  lemma {:induction false} PaddedBinaryByte(n: nat)
    requires n < 256
    ensures PaddedBinary(n, 8) == ToBits(n, 8)
  {
    assert Pow2(8) == 256;
    BinaryLengthBound(n, 8);
  }

  /** `Array.from(s).map(c => c.charCodeAt(0).toString(2).padStart(8, '0')).join('')`:
      the padded binary code of every character in turn. */
  function CodeBits(s: string): seq<Bit>
  {
    if s == [] then [] else CodeBits(s[..|s| - 1]) + PaddedBinary(s[|s| - 1] as int, 8)
  }

  /** Every character of `s` has a code below 256 (a "binary string" in the DOM's sense). */
  predicate IsLatin1(s: string)
  {
    forall i :: 0 <= i < |s| ==> (s[i] as int) < 256
  }

  /** The codes of a Latin-1 string, one byte per character. */
  function Codes(s: string): (r: seq<Byte>)
    requires IsLatin1(s)
    ensures |r| == |s| && forall i :: 0 <= i < |s| ==> r[i] == s[i] as int
  {
    seq(|s|, i requires 0 <= i < |s| => s[i] as int)
  }

  /** `String.fromCharCode` applied to each byte. */
  function Latin1(bs: seq<Byte>): (r: string)
    ensures |r| == |bs|
  {
    seq(|bs|, i requires 0 <= i < |bs| => bs[i] as char)
  }

  /** Every character of `Latin1(bs)` is the code point of the byte at its place. */
  lemma {:induction false} Latin1Codes(bs: seq<Byte>)
    ensures IsLatin1(Latin1(bs)) && forall i :: 0 <= i < |bs| ==> Latin1(bs)[i] as int == bs[i]
  {
  }

  /** `byte.toString(2).padStart(8, '0')` for every byte, concatenated. */
  function ByteBits(bs: seq<Byte>): (r: seq<Bit>)
    ensures |r| == 8 * |bs|
  {
    if bs == [] then [] else ByteBits(bs[..|bs| - 1]) + ToBits(bs[|bs| - 1], 8)
  }

  lemma {:induction false} ByteBitsAppend(a: seq<Byte>, b: seq<Byte>)
    ensures ByteBits(a + b) == ByteBits(a) + ByteBits(b)
  {
    if b != [] {
      assert (a + b)[..|a + b| - 1] == a + b[..|b| - 1];
      ByteBitsAppend(a, b[..|b| - 1]);
    } else {
      assert a + b == a;
    }
  }

  lemma {:induction false} ByteBitsAt(bs: seq<Byte>, i: nat)
    requires i < |bs|
    ensures ByteBits(bs)[8 * i..8 * i + 8] == ToBits(bs[i], 8)
  {
    if i < |bs| - 1 {
      ByteBitsAt(bs[..|bs| - 1], i);
      assert bs[..|bs| - 1][i] == bs[i];
    }
  }

  /** Latin-1 text gives exactly eight bits per character: its bytes' bits. */
  lemma {:induction false} CodeBitsLatin1(s: string)
    requires IsLatin1(s)
    ensures CodeBits(s) == ByteBits(Codes(s))
  {
    if s != [] {
      var init := s[..|s| - 1];
      CodeBitsLatin1(init);
      assert Codes(s)[..|s| - 1] == Codes(init);
      PaddedBinaryByte(s[|s| - 1] as int);
    }
  }

  lemma {:induction false} CodeBitsAppend(a: string, b: string)
    ensures CodeBits(a + b) == CodeBits(a) + CodeBits(b)
  {
    if b != [] {
      assert (a + b)[..|a + b| - 1] == a + b[..|b| - 1];
      CodeBitsAppend(a, b[..|b| - 1]);
    } else {
      assert a + b == a;
    }
  }

  /** The whole bytes of a bit string: every complete group of eight bits, in order; an
      incomplete final group is dropped (the decoders' `if (byte.length === 8)`). */
  function WholeBytes(bits: seq<Bit>): (r: seq<Byte>)
    ensures |r| == |bits| / 8
  {
    seq(|bits| / 8, i requires 0 <= i < |bits| / 8 => FromBits(bits[8 * i..8 * i + 8]))
  }

  /** Grouping the bits of whole bytes gives the bytes back, whatever follows them. */
  lemma {:induction false} WholeBytesOfByteBits(bs: seq<Byte>, rest: seq<Bit>)
    ensures WholeBytes(ByteBits(bs) + rest) == bs + WholeBytes(rest)
  {
    var bits := ByteBits(bs) + rest;
    var n := |bs|;
    assert |bits| / 8 == n + |rest| / 8;
    forall i | 0 <= i < |bits| / 8
      ensures WholeBytes(bits)[i] == (bs + WholeBytes(rest))[i]
    {
      if i < n {
        GroupOfByteBits(bs, rest, i);
      } else {
        GroupOfRest(bs, rest, i - n);
      }
    }
  }

  lemma {:induction false} GroupOfByteBits(bs: seq<Byte>, rest: seq<Bit>, i: nat)
    requires i < |bs|
    ensures FromBits((ByteBits(bs) + rest)[8 * i..8 * i + 8]) == bs[i]
  {
    var a := ByteBits(bs);
    ByteBitsAt(bs, i);
    SliceOfAppend(a, rest, 8 * i, 8 * i + 8);
    assert Pow2(8) == 256;
    FromToBits(bs[i], 8);
  }

  /** A slice that lies within the first part of a concatenation. */
  lemma {:induction false} SliceOfAppend(a: seq<Bit>, b: seq<Bit>, lo: nat, hi: nat)
    requires lo <= hi <= |a|
    ensures (a + b)[lo..hi] == a[lo..hi]
  {
  }

  /** A slice that lies within the second part of a concatenation. */
  lemma {:induction false} SliceOfAppendRight(a: seq<Bit>, b: seq<Bit>, lo: nat, hi: nat)
    requires lo <= hi <= |b|
    ensures (a + b)[|a| + lo..|a| + hi] == b[lo..hi]
  {
  }

  lemma {:induction false} SliceOfAppendRightAt(a: seq<Bit>, b: seq<Bit>, lo: nat, hi: nat, plo: nat, phi: nat)
    requires lo <= hi <= |b| && plo == |a| + lo && phi == |a| + hi
    ensures (a + b)[plo..phi] == b[lo..hi]
  {
    SliceOfAppendRight(a, b, lo, hi);
  }

  lemma {:induction false} GroupOfRest(bs: seq<Byte>, rest: seq<Bit>, j: nat)
    requires 8 * j + 8 <= |rest|
    ensures var i := |bs| + j;
            (ByteBits(bs) + rest)[8 * i..8 * i + 8] == rest[8 * j..8 * j + 8]
  {
    var a := ByteBits(bs);
    var i := |bs| + j;
    SliceOfAppendRightAt(a, rest, 8 * j, 8 * j + 8, 8 * i, 8 * i + 8);
  }

  lemma {:induction false} WholeBytesRoundTrip(bs: seq<Byte>)
    ensures WholeBytes(ByteBits(bs)) == bs
  {
    WholeBytesOfByteBits(bs, []);
    assert ByteBits(bs) + [] == ByteBits(bs);
  }

  lemma {:induction false} WholeBytesOfZeros(n: nat)
    ensures forall i :: 0 <= i < n / 8 ==> WholeBytes(Zeros(n))[i] == 0
  {
    forall i | 0 <= i < n / 8 ensures WholeBytes(Zeros(n))[i] == 0 {
      FromBitsZeros(Zeros(n)[8 * i..8 * i + 8]);
    }
  }

  lemma {:induction false} FromBitsZeros(bs: seq<Bit>)
    requires forall i :: 0 <= i < |bs| ==> bs[i] == 0
    ensures FromBits(bs) == 0
  {
    if bs != [] {
      FromBitsZeros(bs[..|bs| - 1]);
    }
  }

  /** Bit strings in which the last group is completed with zero bits, as the audio decoder's
      `padEnd(8, '0')` does. */
  function PaddedBytes(bits: seq<Bit>): (r: seq<Byte>)
    ensures |r| == (|bits| + 7) / 8
  {
    WholeBytes(bits + Zeros((8 - |bits| % 8) % 8))
  }

  /** A bit string with a nonzero value has a 1 somewhere. */
  lemma {:induction false} OneOfNonzero(bs: seq<Bit>) returns (j: nat)
    requires FromBits(bs) != 0
    ensures j < |bs| && bs[j] == 1
  {
    if bs[|bs| - 1] == 1 {
      j := |bs| - 1;
    } else {
      j := OneOfNonzero(bs[..|bs| - 1]);
    }
  }

  /** Whole bytes need no completion. */
  lemma {:induction false} PaddedBytesOfByteBits(bs: seq<Byte>)
    ensures PaddedBytes(ByteBits(bs)) == bs
  {
    var bits := ByteBits(bs);
    assert |bits| % 8 == 0;
    var z := Zeros((8 - |bits| % 8) % 8);
    assert |z| == 0;
    assert bits + z == bits;
    assert PaddedBytes(bits) == WholeBytes(bits);
    WholeBytesRoundTrip(bs);
  }

  // ---------------------------------------------------------------------------------------
  // Bitwise operators on non-negative integers

  /** `x & y`, bit by bit from the lowest. */
  function And(x: nat, y: nat): nat
    decreases x
  {
    if x == 0 || y == 0 then 0
    else 2 * And(x / 2, y / 2) + if x % 2 == 1 && y % 2 == 1 then 1 else 0
  }

  /** `x | y`, bit by bit from the lowest. */
  function Or(x: nat, y: nat): nat
    decreases x + y
  {
    if x == 0 then y else if y == 0 then x else 2 * Or(x / 2, y / 2) + Max(x % 2, y % 2)
  }

  lemma {:induction false} MulLe(a: nat, x: nat, y: nat)
    requires x <= y
    ensures a * x <= a * y
  {
    assert a * y == a * x + a * (y - x);
  }

  /** The remainder of `d * q + r` by `d`, for `r < d`, is `r`. */
  lemma {:induction false} ModUnique(v: nat, d: nat, q: nat, r: nat)
    requires 0 < d && r < d && v == d * q + r
    ensures v % d == r
  {
    var q0, r0 := v / d, v % d;
    assert v == d * q0 + r0;
    if q0 > q {
      MulLe(d, q + 1, q0);
    } else if q0 < q {
      MulLe(d, q0 + 1, q);
    }
  }

  /** Adding less than `p` to a multiple of `p` sets its remainder. */
  lemma {:induction false} ModOfMultiplePlus(c: nat, f: nat, p: nat)
    requires 0 < p && c % p == 0 && f < p
    ensures (c + f) % p == f
  {
    assert c == p * (c / p) + c % p;
    ModUnique(c + f, p, c / p, f);
  }

  /** Dividing by `2 * p` splits off the lowest bit, then divides by `p`. */
  lemma {:induction false} ModDouble(v: nat, p: nat)
    requires p >= 1
    ensures v % (2 * p) == 2 * ((v / 2) % p) + v % 2
  {
    var h := v / 2;
    var q, t := h / p, h % p;
    assert h == p * q + t;
    assert v == 2 * h + v % 2;
    assert v == (2 * p) * q + (2 * t + v % 2);
    ModUnique(v, 2 * p, q, 2 * t + v % 2);
  }

  /** The value of the `k` low bits of `v`. */
  function LowBits(v: nat, k: nat): nat
  {
    if k == 0 then 0 else v % 2 + 2 * LowBits(v / 2, k - 1)
  }

  lemma {:induction false} LowBitsMod(v: nat, k: nat)
    ensures LowBits(v, k) == v % Pow2(k)
  {
    if k == 0 {
      assert Pow2(k) == 1;
    } else {
      LowBitsMod(v / 2, k - 1);
      ModDouble(v, Pow2(k - 1));
      assert Pow2(k) == 2 * Pow2(k - 1);
    }
  }

  /** Masking with `k` one bits keeps the `k` low bits. */
  lemma {:induction false} AndLowMask(v: nat, k: nat)
    ensures And(v, Pow2(k) - 1) == v % Pow2(k)
  {
    if k == 0 {
      assert Pow2(k) == 1;
    } else if v == 0 {
      ModUnique(v, Pow2(k), 0, 0);
    } else {
      var m, p := Pow2(k) - 1, Pow2(k - 1);
      assert m == 2 * (p - 1) + 1;
      assert m / 2 == p - 1 && m % 2 == 1;
      assert And(v, m) == 2 * And(v / 2, p - 1) + v % 2;
      AndLowMask(v / 2, k - 1);
      ModDouble(v, p);
      assert And(v, m) == v % (2 * p);
      assert Pow2(k) == 2 * p;
    }
  }

  /** Masking a value below `2^n` with the bits from `k` to `n` clears its `k` low bits. */
  lemma {:induction false} AndHighMask(v: nat, n: nat, k: nat)
    requires k <= n && v < Pow2(n)
    ensures Pow2(k) <= Pow2(n) && And(v, Pow2(n) - Pow2(k)) == v - v % Pow2(k)
  {
    if k == 0 || k == n || v == 0 {
      AndHighBase(v, n, k);
    } else {
      Pow2Mono(k - 1, n - 1);
      AndHighMask(v / 2, n - 1, k - 1);
      AndHighStep(v, n, k);
    }
  }

  /** `AndHighMask` for an empty low part, an empty high part, or zero. */
  lemma {:induction false} AndHighBase(v: nat, n: nat, k: nat)
    requires k <= n && v < Pow2(n) && (k == 0 || k == n || v == 0)
    ensures Pow2(k) <= Pow2(n) && And(v, Pow2(n) - Pow2(k)) == v - v % Pow2(k)
  {
    Pow2Mono(k, n);
    if k == 0 {
      AndLowMask(v, n);
      assert Pow2(k) == 1;
      ModUnique(v, Pow2(n), 0, v);
    } else if k == n {
      ModUnique(v, Pow2(k), 0, v);
    } else {
      ModUnique(v, Pow2(k), 0, 0);
    }
  }

  /** One bit of `AndHighMask`: the mask is even, so the lowest bit is cleared and the rest
      are masked one place down. */
  lemma {:induction false} AndHighStep(v: nat, n: nat, k: nat)
    requires 0 < k < n && 0 < v < Pow2(n) && Pow2(k - 1) <= Pow2(n - 1)
    requires And(v / 2, Pow2(n - 1) - Pow2(k - 1)) == v / 2 - (v / 2) % Pow2(k - 1)
    ensures Pow2(k) <= Pow2(n) && And(v, Pow2(n) - Pow2(k)) == v - v % Pow2(k)
  {
    var p, q := Pow2(n - 1), Pow2(k - 1);
    var m := Pow2(n) - Pow2(k);
    assert m == 2 * (p - q);
    assert m / 2 == p - q && m % 2 == 0;
    assert And(v, m) == 2 * And(v / 2, p - q);
    ModDouble(v, q);
    assert And(v, m) == v - v % (2 * q);
    assert Pow2(k) == 2 * q;
  }

  /** Setting every one of the `n` low bits of a value below `2^n` gives all ones. */
  lemma {:induction false} OrAllOnes(x: nat, n: nat)
    requires x < Pow2(n)
    ensures Or(x, Pow2(n) - 1) == Pow2(n) - 1
  {
    if x > 0 {
      assert Pow2(n) - 1 == 2 * (Pow2(n - 1) - 1) + 1;
      OrAllOnes(x / 2, n - 1);
    }
  }

  /** Concatenation regroups; stated on its own because the solver is slow to find it in a
      large context. */
  lemma {:induction false} SliceSplit<T>(s: seq<T>, i: nat, j: nat)
    requires i <= j <= |s|
    ensures s[..i] + s[i..j] == s[..j]
  {
  }

  lemma {:induction false} SliceAround<T>(s: seq<T>, i: nat, j: nat)
    requires i <= j <= |s|
    ensures s[i..] == s[i..j] + s[j..]
  {
  }

  lemma {:induction false} ConcatAssoc<T>(p: seq<T>, q: seq<T>, x: seq<T>)
    ensures (p + q) + x == p + (q + x)
  {
  }
}
