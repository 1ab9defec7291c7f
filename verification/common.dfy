/** Shared vocabulary of the model: bytes, powers of two, the big-endian reading
    of a byte string, zero padding, and the Option/Result wrappers used for the
    exceptions the source raises. */
module Common {

  datatype Option<+T> = None | Some(value: T)

  datatype Result<+T, +E> = Ok(value: T) | Err(error: E)

  /** One byte of a file. */
  type Byte = x: int | 0 <= x < 256

  function Pow2(n: nat): (r: nat)
    ensures r >= 1
  {
    if n == 0 then 1 else 2 * Pow2(n - 1)
  }

  lemma {:induction false} Pow2Add(a: nat, b: nat)
    ensures Pow2(a + b) == Pow2(a) * Pow2(b)
  {
    if b > 0 {
      Pow2Add(a, b - 1);
      assert Pow2(a + b) == 2 * Pow2(a + b - 1);
    }
  }

  lemma {:induction false} Pow2Monotone(a: nat, b: nat)
    requires a <= b
    ensures Pow2(a) <= Pow2(b)
  {
    if a < b {
      Pow2Monotone(a, b - 1);
    }
  }

  /** `ceil(n / 4)` on integers: the bytes needed for n two-bit codes. */
  function CeilQuarter(n: nat): (r: nat)
    ensures 4 * r >= n && 4 * r < n + 4
  {
    (n + 3) / 4
  }

  /** `bytes(n)` of the source: n zero bytes. */
  function Zeros(n: nat): (r: seq<Byte>)
    ensures |r| == n
    ensures forall i :: 0 <= i < n ==> r[i] == 0
  {
    seq(n, _ => 0)
  }

  /** `int.from_bytes(bs)` with big-endian byte order: the first byte is the most significant,
      so k bytes hold a value below 2^(8k). */
  function BigEndian(bs: seq<Byte>): (r: nat)
    ensures r < Pow2(8 * |bs|)
  {
    if bs == [] then 0
    else
      var init := bs[..|bs| - 1];
      var v := BigEndian(init);
      Pow2Add(8 * |init|, 8);
      assert Pow2(8) == 256;
      assert v * 256 + bs[|bs| - 1] <= (Pow2(8 * |init|) - 1) * 256 + 255;
      v * 256 + bs[|bs| - 1]
  }

  /** Splitting a byte string splits its big-endian value. */
  lemma {:induction false} BigEndianAppend(xs: seq<Byte>, ys: seq<Byte>)
    ensures BigEndian(xs + ys) == BigEndian(xs) * Pow2(8 * |ys|) + BigEndian(ys)
  {
    if ys == [] {
      assert xs + ys == xs;
    } else {
      var init := ys[..|ys| - 1];
      assert (xs + ys)[..|xs + ys| - 1] == xs + init;
      BigEndianAppend(xs, init);
      Pow2Add(8 * |init|, 8);
      assert Pow2(8) == 256;
      assert BigEndian(xs + ys) == BigEndian(xs + init) * 256 + ys[|ys| - 1];
      assert BigEndian(ys) == BigEndian(init) * 256 + ys[|ys| - 1];
      ShiftDigit(BigEndian(xs), Pow2(8 * |init|), BigEndian(init), ys[|ys| - 1]);
    }
  }

  lemma ShiftDigit(a: int, p: int, b: int, d: int)
    ensures (a * p + b) * 256 + d == a * (p * 256) + (b * 256 + d)
  {
  }

  lemma SeqAssoc<T>(a: seq<T>, b: seq<T>, c: seq<T>)
    ensures a + (b + c) == (a + b) + c
  {
  }

  /** A slice inside the first part of a concatenation. */
  lemma SliceLeft<T>(a: seq<T>, b: seq<T>, lo: nat, hi: nat)
    requires lo <= hi <= |a|
    ensures (a + b)[lo..hi] == a[lo..hi]
  {
  }

  /** A slice inside the second part of a concatenation. */
  lemma SliceRight<T>(a: seq<T>, b: seq<T>, lo: nat, hi: nat)
    requires |a| <= lo <= hi <= |a| + |b|
    ensures (a + b)[lo..hi] == b[lo - |a|..hi - |a|]
  {
  }

  lemma MulNat(a: nat, b: nat)
    ensures a * b >= 0
  {
  }

  lemma MulAtLeast(a: int, d: int)
    requires a >= 1 && d > 0
    ensures a * d >= d
  {
    assert a * d == d + (a - 1) * d;
  }

  /** Integer division and remainder are determined by any exact decomposition. */
  lemma DivModUnique(x: int, d: int, q: int, r: int)
    requires d > 0 && 0 <= r < d && x == q * d + r
    ensures x / d == q && x % d == r
  {
    var q', r' := x / d, x % d;
    assert x == q' * d + r';
    if q' > q {
      assert (q' - q) * d == r - r';
      MulAtLeast(q' - q, d);
    } else if q' < q {
      assert (q - q') * d == r' - r;
      MulAtLeast(q - q', d);
    }
  }

  lemma DivDiv(x: nat, a: nat, b: nat)
    requires a > 0 && b > 0
    ensures x / (a * b) == (x / a) / b
  {
    var q, r := (x / a) / b, (x / a) % b;
    var r0 := x % a;
    assert x == (q * b + r) * a + r0;
    assert x == q * (a * b) + (r * a + r0);
    assert r * a + r0 < a * b by {
      assert r <= b - 1;
      assert r * a <= (b - 1) * a;
    }
    DivModUnique(x, a * b, q, r * a + r0);
  }
}
