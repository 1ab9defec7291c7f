/** The integrity hash that binds the binary file's header to the names in the
    two metadata tables: a polynomial hash per name, folded into a 32-bit
    accumulator. */
module Hash {
  import opened Common

  /** 2^32: the fold keeps only the low 32 bits (`& (2 ** 32 - 1)` on a non-negative int). */
  const TwoTo32: nat := 0x1_0000_0000

  /** Python's `^` on non-negative integers, defined bit by bit from the least significant end. */
  function Xor(a: nat, b: nat): (r: nat)
    ensures r == 0 <==> a == b
    ensures r % 2 == (a + b) % 2
    ensures r <= a + b
    decreases a + b
  {
    if a == 0 then b
    else if b == 0 then a
    else 2 * Xor(a / 2, b / 2) + (if a % 2 == b % 2 then 0 else 1)
  }

  /** Bit i of x. */
  function Bit(x: nat, i: nat): nat
  {
    (x / Pow2(i)) % 2
  }

  /** Xor agrees with the bitwise definition of exclusive or at every bit position. */
  lemma {:induction false} XorBit(a: nat, b: nat, i: nat)
    ensures Bit(Xor(a, b), i) == if Bit(a, i) == Bit(b, i) then 0 else 1
    decreases i
  {
    if a == 0 || b == 0 {
      assert Bit(0, i) == 0;
    } else {
      var x, h := Xor(a, b), Xor(a / 2, b / 2);
      var c := if a % 2 == b % 2 then 0 else 1;
      assert x == 2 * h + c;
      DivModUnique(x, 2, h, c);
      if i == 0 {
        assert Pow2(0) == 1;
      } else {
        var p := Pow2(i - 1);
        assert Pow2(i) == 2 * p;
        assert Bit(x, i) == Bit(h, i - 1) by { DivDiv(x, 2, p); }
        assert Bit(a, i) == Bit(a / 2, i - 1) by { DivDiv(a, 2, p); }
        assert Bit(b, i) == Bit(b / 2, i - 1) by { DivDiv(b, 2, p); }
        XorBit(a / 2, b / 2, i - 1);
      }
    }
  }

  function Power(base: nat, n: nat): nat
  {
    if n == 0 then 1 else base * Power(base, n - 1)
  }

  /** `hash_str`: the polynomial hash with multiplier 23 over the code points, with no modulus. */
  function HashStr(s: string): (r: nat)
    ensures r == 0 <==> forall i :: 0 <= i < |s| ==> s[i] == '\0'
    ensures |s| == 1 ==> r == s[0] as int
  {
    if s == [] then 0 else 23 * HashStr(s[..|s| - 1]) + s[|s| - 1] as int
  }

  /** Hashing a concatenation shifts the first part by 23^|t| (Horner's rule). */
  lemma {:induction false} HashStrAppend(s: string, t: string)
    ensures HashStr(s + t) == HashStr(s) * Power(23, |t|) + HashStr(t)
  {
    if t != [] {
      var init := t[..|t| - 1];
      var c := t[|t| - 1] as int;
      assert (s + t)[..|s + t| - 1] == s + init;
      assert (s + t)[|s + t| - 1] as int == c;
      HashStrAppend(s, init);
      assert HashStr(s + t) == 23 * HashStr(s + init) + c;
      assert HashStr(t) == 23 * HashStr(init) + c;
      assert Power(23, |t|) == 23 * Power(23, |init|);
      HornerStep(HashStr(s), Power(23, |init|), HashStr(init), c);
    } else {
      assert s + t == s;
    }
  }

  lemma HornerStep(a: int, p: int, b: int, c: int)
    ensures 23 * (a * p + b) + c == a * (23 * p) + (23 * b + c)
  {
  }

  /** `hash_str` as the source computes it: one multiply-and-add per character. */
  method ComputeHashStr(s: string) returns (h: nat)
    ensures h == HashStr(s)
  {
    h := 0;
    for i := 0 to |s|
      invariant h == HashStr(s[..i])
    {
      assert s[..i + 1][..i] == s[..i];
      h := h * 23;
      h := h + s[i] as int;
    }
    assert s[..|s|] == s;
  }

  /** One fold step of `hash_list`: multiply by 17, exclusive-or the name's hash, keep 32 bits. */
  function HashStep(acc: nat, h: nat): (r: nat)
    ensures r < TwoTo32
  {
    Xor(acc * 17, h) % TwoTo32
  }

  /** The fold of `hash_list` continued from accumulator `acc` over `names`, in list order. */
  function HashFold(acc: nat, names: seq<string>): nat
  {
    if names == [] then acc
    else HashStep(HashFold(acc, names[..|names| - 1]), HashStr(names[|names| - 1]))
  }

  /** `hash_list`: the fold from 0. */
  function HashList(names: seq<string>): (r: nat)
    ensures r < TwoTo32
  {
    HashFold(0, names)
  }

  /** Folding over a concatenation is folding over the second part from the first part's result. */
  lemma {:induction false} HashFoldAppend(acc: nat, xs: seq<string>, ys: seq<string>)
    ensures HashFold(acc, xs + ys) == HashFold(HashFold(acc, xs), ys)
  {
    if ys == [] {
      assert xs + ys == xs;
    } else {
      var init := ys[..|ys| - 1];
      assert (xs + ys)[..|xs + ys| - 1] == xs + init;
      HashFoldAppend(acc, xs, init);
    }
  }

  /** The hash of a concatenated table continues the first table's hash over the second's names. */
  lemma HashListAppend(xs: seq<string>, ys: seq<string>)
    ensures HashList(xs + ys) == HashFold(HashList(xs), ys)
  {
    HashFoldAppend(0, xs, ys);
  }

  /** Appending one name is one fold step. */
  lemma HashListSnoc(xs: seq<string>, s: string)
    ensures HashList(xs + [s]) == HashStep(HashList(xs), HashStr(s))
  {
    HashListAppend(xs, [s]);
    assert [s][..0] == [];
  }

  /** A single name hashes to its string hash reduced to 32 bits. */
  lemma HashListSingleton(s: string)
    ensures HashList([s]) == HashStr(s) % TwoTo32
  {
    HashListSnoc([], s);
  }

  lemma HashListExample(x: string, y: string, hx: nat, hy: nat)
    requires |x| == 1 && |y| == 1 && hx == x[0] as int && hy == y[0] as int
    ensures HashList([x, y]) == Xor(17 * (hx % TwoTo32), hy) % TwoTo32
  {
    assert HashStr(x) == hx by { assert x[..0] == ""; }
    assert HashStr(y) == hy by { assert y[..0] == ""; }
    HashListSingleton(x);
    HashListSnoc([x], y);
    assert [x] + [y] == [x, y];
  }

  /** The two exclusive-ors behind the order example, unfolded one bit at a time. */
  lemma XorExamples(a: nat, b: nat, c: nat, d: nat)
    requires a == 1649 && b == 98 && c == 1666 && d == 97
    ensures Xor(a, b) == 1555 && Xor(c, d) == 1763
  {
    assert Xor(25, 1) == 24;
    assert Xor(51, 3) == 48;
    assert Xor(103, 6) == 97;
    assert Xor(206, 12) == 194;
    assert Xor(412, 24) == 388;
    assert Xor(824, 49) == 777;
    assert Xor(26, 1) == 27;
    assert Xor(52, 3) == 55;
    assert Xor(104, 6) == 110;
    assert Xor(208, 12) == 220;
    assert Xor(416, 24) == 440;
    assert Xor(833, 48) == 881;
  }

  /** The hash depends on the order of the names: ["a", "b"] and ["b", "a"] hash differently. */
  lemma HashListOrderSensitive(a: string, b: string)
    requires a == "a" && b == "b"
    ensures HashList([a, b]) != HashList([b, a])
  {
    var ha, hb := a[0] as int, b[0] as int;
    HashListExample(a, b, ha, hb);
    HashListExample(b, a, hb, ha);
    XorExamples(17 * (ha % TwoTo32), hb, 17 * (hb % TwoTo32), ha);
    assert 1555 % TwoTo32 == 1555;
    assert 1763 % TwoTo32 == 1763;
  }

  /** `hash_list` as the source computes it: a loop over the names. */
  method ComputeHashList(names: seq<string>) returns (h: nat)
    ensures h == HashList(names)
    ensures h < TwoTo32
  {
    h := 0;
    for i := 0 to |names|
      invariant h == HashList(names[..i])
    {
      assert names[..i + 1][..i] == names[..i];
      var t := ComputeHashStr(names[i]);
      h := h * 17;
      h := Xor(h, t) % TwoTo32;
    }
    assert names[..|names|] == names;
  }
}
