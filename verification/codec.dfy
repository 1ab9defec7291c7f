/** The 2-bit record codec: dosages become 2-bit codes, packed four to a byte
    with the first individual in the most significant bits, and read back by
    cutting the record, taken as one big-endian integer, into 2-bit groups. */
module Codec {
  import opened Common

  /** A genotype dosage: 0, 1 or 2 copies of the alternate allele, or missing (`nan`). */
  datatype Dosage = RefHom | Het | AltHom | Missing

  /** A value handed to the writer: a dosage `val_map` knows, or anything else. */
  datatype Value = Dose(dosage: Dosage) | Unrecognised

  /** A 2-bit code. */
  type Code = x: int | 0 <= x < 4

  /** `val_map`: 0, 1, 2 map to themselves and `nan` maps to 3. */
  function CodeOf(d: Dosage): (c: Code)
    ensures GenoMap(c) == d
  {
    match d
    case RefHom => 0
    case Het => 1
    case AltHom => 2
    case Missing => 3
  }

  /** The number of alternate alleles a dosage counts, None for a missing genotype. */
  function AltAlleles(d: Dosage): Option<nat>
  {
    match d
    case RefHom => Some(0)
    case Het => Some(1)
    case AltHom => Some(2)
    case Missing => None
  }

  /** `_GENO_MAP = [0, 1, 2, nan]`, indexed by a 2-bit code. */
  function GenoMap(c: Code): (d: Dosage)
    ensures AltAlleles(d) == if c < 3 then Some(c) else None
  {
    if c == 0 then RefHom else if c == 1 then Het else if c == 2 then AltHom else Missing
  }

  /** Together with CodeOf's contract: `val_map` and `_GENO_MAP` are inverse bijections. */
  lemma GenoMapInverse(c: Code)
    ensures CodeOf(GenoMap(c)) == c
  {
  }

  function Codes(ds: seq<Dosage>): (cs: seq<Code>)
    ensures |cs| == |ds|
    ensures forall i :: 0 <= i < |ds| ==> GenoMap(cs[i]) == ds[i]
  {
    seq(|ds|, i requires 0 <= i < |ds| => CodeOf(ds[i]))
  }

  /** The right shift that brings slot t (0 = most significant) of a byte down to bits 0-1. */
  function SlotShift(t: nat): nat
    requires t < 4
  {
    6 - 2 * t
  }

  /** The byte holding up to four codes, the first in the top two bits and unused low slots zero:
      the value the writer's `record` accumulator holds after adding each code at `shift_by`. */
  function PackByte(g: seq<Code>): (r: int)
    requires |g| <= 4
    ensures 0 <= r && r + Pow2(8 - 2 * |g|) <= 256
  {
    assert Pow2(0) == 1 && Pow2(2) == 4 && Pow2(4) == 16 && Pow2(6) == 64 && Pow2(8) == 256;
    if g == [] then 0
    else
      var n := |g| - 1;
      PackByte(g[..n]) + g[n] * Pow2(SlotShift(n))
  }

  function CodeOr0(g: seq<Code>, t: nat): Code
  {
    if t < |g| then g[t] else 0
  }

  /** A packed byte read as four base-4 digits, most significant first, is the group. */
  lemma {:induction false} PackByteDigits(g: seq<Code>)
    requires |g| <= 4
    ensures PackByte(g) == 64 * CodeOr0(g, 0) + 16 * CodeOr0(g, 1) + 4 * CodeOr0(g, 2) + CodeOr0(g, 3)
  {
    if g != [] {
      var n := |g| - 1;
      var init := g[..n];
      PackByteDigits(init);
      assert Pow2(0) == 1 && Pow2(2) == 4 && Pow2(4) == 16 && Pow2(6) == 64;
      assert Pow2(SlotShift(n)) == if n == 0 then 64 else if n == 1 then 16 else if n == 2 then 4 else 1;
      assert PackByte(g) == PackByte(init) + g[n] * Pow2(SlotShift(n));
      assert CodeOr0(g, 0) == if n == 0 then g[n] else CodeOr0(init, 0);
      assert CodeOr0(g, 1) == if n == 1 then g[n] else CodeOr0(init, 1);
      assert CodeOr0(g, 2) == if n == 2 then g[n] else CodeOr0(init, 2);
      assert CodeOr0(g, 3) == if n == 3 then g[n] else CodeOr0(init, 3);
      assert CodeOr0(init, n) == 0;
    }
  }

  /** A packed byte is a byte, and slot t of it holds the t-th code (0 past the end of the group). */
  lemma {:induction false} PackByteSlots(g: seq<Code>, t: nat)
    requires |g| <= 4 && t < 4
    ensures 0 <= PackByte(g) < 256
    ensures (PackByte(g) / Pow2(SlotShift(t))) % 4 == CodeOr0(g, t)
  {
    PackByteDigits(g);
    var a: int, b: int, c: int, d: int := CodeOr0(g, 0), CodeOr0(g, 1), CodeOr0(g, 2), CodeOr0(g, 3);
    var x := PackByte(g);
    assert Pow2(0) == 1 && Pow2(2) == 4 && Pow2(4) == 16 && Pow2(6) == 64;
    if t == 0 {
      DivModUnique(x, 64, a, 16 * b + 4 * c + d);
      DivModUnique(a, 4, 0, a);
    } else if t == 1 {
      DivModUnique(x, 16, 4 * a + b, 4 * c + d);
      DivModUnique(4 * a + b, 4, a, b);
    } else if t == 2 {
      DivModUnique(x, 4, 16 * a + 4 * b + c, d);
      DivModUnique(16 * a + 4 * b + c, 4, 4 * a + b, c);
    } else {
      DivModUnique(x, 4, 16 * a + 4 * b + c, d);
    }
  }

  /** The writer's packing: four codes per byte, MSB first, a final partial byte zero-filled. */
  function Pack(cs: seq<Code>): (r: seq<Byte>)
    ensures |r| == CeilQuarter(|cs|)
    decreases |cs|
  {
    if cs == [] then []
    else
      var g := if |cs| <= 4 then cs else cs[..4];
      PackByteSlots(g, 0);
      [PackByte(g) as Byte] + Pack(cs[|g|..])
  }

  /** A packing of at least four codes starts with the byte of the first four. */
  lemma PackFirstGroup(cs: seq<Code>)
    requires |cs| >= 4
    ensures 0 <= PackByte(cs[..4]) < 256
    ensures Pack(cs) == [PackByte(cs[..4]) as Byte] + Pack(cs[4..])
  {
    PackByteSlots(cs[..4], 0);
    if |cs| == 4 {
      assert cs == cs[..4];
    }
  }

  /** Packing a whole number of groups and then more codes is packing each part. */
  lemma {:induction false} PackAppend(xs: seq<Code>, ys: seq<Code>)
    requires |xs| % 4 == 0
    ensures Pack(xs + ys) == Pack(xs) + Pack(ys)
    decreases |xs|
  {
    if xs == [] {
      assert xs + ys == ys;
    } else {
      Mod4Step(|xs|);
      var cs, tail := xs + ys, xs[4..];
      assert cs[..4] == xs[..4];
      assert cs[4..] == tail + ys;
      PackFirstGroup(cs);
      PackFirstGroup(xs);
      assert |tail| % 4 == 0;
      PackAppend(tail, ys);
      var b := [PackByte(xs[..4]) as Byte];
      SeqAssoc(b, Pack(tail), Pack(ys));
    }
  }

  lemma Mod4Step(n: nat)
    requires n % 4 == 0 && n > 0
    ensures n >= 4 && (n - 4) % 4 == 0
  {
  }

  /** The reader's rule at byte level: code i sits in byte i div 4 at slot i mod 4; past the
      record it reads as 0. */
  function GroupCode(bs: seq<Byte>, i: nat): (c: Code)
    ensures i < 4 * |bs| ==>
              var p := Pow2(SlotShift(i % 4));
              c * p <= bs[i / 4] % (4 * p) < (c + 1) * p
    ensures i >= 4 * |bs| ==> c == 0
  {
    if i < 4 * |bs| then
      SlotDigit(bs[i / 4], Pow2(SlotShift(i % 4)));
      (bs[i / 4] / Pow2(SlotShift(i % 4))) % 4
    else 0
  }

  /** The base-4 digit of x at place p is the one the remainder of x modulo 4p falls in. */
  lemma SlotDigit(x: nat, p: nat)
    requires p > 0
    ensures var c := (x / p) % 4; c * p <= x % (4 * p) < (c + 1) * p
  {
    var q, r := x / p, x % p;
    var c, k := q % 4, q / 4;
    assert q == 4 * k + c && 0 <= c <= 3 && 0 <= r < p;
    assert x == q * p + r;
    var cp := c * p;
    assert q * p == k * (4 * p) + cp;
    assert 0 <= cp <= 3 * p;
    assert (c + 1) * p == cp + p;
    DivModUnique(x, 4 * p, k, cp + r);
  }

  /** The reader's unpacking of one record into `n` dosages. */
  function Unpack(bs: seq<Byte>, n: nat): (ds: seq<Dosage>)
    ensures |ds| == n
  {
    seq(n, i requires 0 <= i < n => GenoMap(GroupCode(bs, i)))
  }

  /** Packing places code k at byte k div 4, shift 6 - 2 * (k mod 4), and leaves the unused
      slots of the final byte zero. */
  lemma {:induction false} PackSlots(cs: seq<Code>, k: nat)
    requires k < 4 * CeilQuarter(|cs|)
    ensures GroupCode(Pack(cs), k) == CodeOr0(cs, k)
    decreases |cs|
  {
    if k < 4 {
      PackSlotsFirstByte(cs, k);
    } else {
      var bs := Pack(cs);
      PackFirstGroup(cs);
      var rest := cs[4..];
      PackSlots(rest, k - 4);
      DivModUnique(k, 4, (k - 4) / 4 + 1, (k - 4) % 4);
      assert bs[k / 4] == Pack(rest)[(k - 4) / 4];
      assert CodeOr0(cs, k) == CodeOr0(rest, k - 4);
    }
  }

  lemma PackSlotsFirstByte(cs: seq<Code>, k: nat)
    requires cs != [] && k < 4
    ensures GroupCode(Pack(cs), k) == CodeOr0(cs, k)
  {
    var g := if |cs| <= 4 then cs else cs[..4];
    var bs := Pack(cs);
    var x := PackByte(g);
    assert bs[0] == x by {
      PackByteSlots(g, 0);
    }
    assert GroupCode(bs, k) == (x / Pow2(SlotShift(k))) % 4;
    PackByteSlots(g, k);
    assert CodeOr0(g, k) == CodeOr0(cs, k);
  }

  /** Bytes appended after a record do not change the codes read from it. */
  lemma GroupCodePrefix(bs: seq<Byte>, extra: seq<Byte>, i: nat)
    requires i < 4 * |bs|
    ensures GroupCode(bs + extra, i) == GroupCode(bs, i)
  {
    assert (bs + extra)[i / 4] == bs[i / 4];
  }

  /** One fixed-width record: the packed codes followed by zero bytes up to `width`. */
  function EncodeRecord(ds: seq<Dosage>, width: nat): (r: seq<Byte>)
    requires CeilQuarter(|ds|) <= width
    ensures |r| == width
  {
    Pack(Codes(ds)) + Zeros(width - CeilQuarter(|ds|))
  }

  /** Reading a record written for the same individual count gives back the dosages. */
  lemma RecordRoundTrip(ds: seq<Dosage>, width: nat)
    requires CeilQuarter(|ds|) <= width
    ensures Unpack(EncodeRecord(ds, width), |ds|) == ds
  {
    var cs := Codes(ds);
    var r := Unpack(EncodeRecord(ds, width), |ds|);
    forall i | 0 <= i < |ds| ensures r[i] == ds[i] {
      PackSlots(cs, i);
      GroupCodePrefix(Pack(cs), Zeros(width - CeilQuarter(|ds|)), i);
    }
  }

  /** In the final partial byte of a packed record, the slots past the last individual read 0. */
  lemma PackPaddingIsZero(ds: seq<Dosage>, width: nat, k: nat)
    requires CeilQuarter(|ds|) <= width
    requires |ds| <= k < 4 * CeilQuarter(|ds|)
    ensures GroupCode(EncodeRecord(ds, width), k) == 0
  {
    PackSlots(Codes(ds), k);
    GroupCodePrefix(Pack(Codes(ds)), Zeros(width - CeilQuarter(|ds|)), k);
  }

  lemma MulStrict(a: int, b: int, c: int)
    requires a < b && c > 0
    ensures a * c < b * c
  {
    MulAtLeast(b - a, c);
    assert b * c - a * c == (b - a) * c;
  }

  /** The arithmetic of shifting a number split as `(4a + b) * 2^m + r` left by k bits. */
  lemma ShiftSplit(x: int, q: int, r: int, a: int, b: int, pm: int, pk: int, pn2: int)
    requires x == q * pm + r && q == 4 * a + b && pm * pk == pn2
    ensures x * pk == a * (4 * pn2) + (b * pn2 + r * pk)
  {
    calc {
      x * pk;
      (q * pm + r) * pk;
      q * (pm * pk) + r * pk;
      q * pn2 + r * pk;
      (4 * a + b) * pn2 + r * pk;
      a * (4 * pn2) + (b * pn2 + r * pk);
    }
  }

  /** Shift, mask and shift on plain integers: pk = 2^k, pm = 2^m, pn2 = 2^(m + k) = 2^(n - 2). */
  lemma MaskAlgebra(x: nat, pm: int, pk: int, pn2: int)
    requires pm >= 1 && pk >= 1 && pm * pk == pn2
    ensures ((x * pk) % (4 * pn2)) / pn2 == (x / pm) % 4
  {
    var q, r := x / pm, x % pm;
    var a, b := q / 4, q % 4;
    ShiftSplit(x, q, r, a, b, pm, pk, pn2);
    assert r * pk < pn2 by {
      MulStrict(r, pm, pk);
    }
    var low := b * pn2 + r * pk;
    assert low < 4 * pn2 by {
      MulAtLeast(4 - b, pn2);
      assert (4 - b) * pn2 == 4 * pn2 - b * pn2;
    }
    assert 0 <= r * pk && 0 <= b * pn2;
    DivModUnique(x * pk, 4 * pn2, a, low);
    DivModUnique(low, pn2, b, r * pk);
  }

  /** `((x << k) & (2^n - 1)) >> (n - 2)` keeps the 2 bits of x just below bit n - k. */
  lemma ShiftMaskShift(x: nat, n: nat, k: nat)
    requires k + 2 <= n
    ensures ((x * Pow2(k)) % Pow2(n)) / Pow2(n - 2) == (x / Pow2(n - 2 - k)) % 4
  {
    var m := n - 2 - k;
    Pow2Add(m, k);
    Pow2Add(n - 2, 2);
    assert Pow2(2) == 4;
    MaskAlgebra(x, Pow2(m), Pow2(k), Pow2(n - 2));
  }

  /** Shifting a record left by its whole width or more and masking leaves nothing. */
  lemma ShiftPastWidth(x: nat, n: nat, k: nat)
    requires n <= k
    ensures (x * Pow2(k)) % Pow2(n) == 0
  {
    Pow2Add(k - n, n);
    MulRegroup(x, Pow2(k - n), Pow2(n), Pow2(k));
    DivModUnique(x * Pow2(k), Pow2(n), x * Pow2(k - n), 0);
  }

  lemma MulRegroup(x: int, a: int, b: int, ab: int)
    requires ab == a * b
    ensures x * ab == (x * a) * b + 0
  {
  }

  /** Dividing `p * 256 + b` by pu, where pu * 4 * w == 256, leaves b / pu in the low two bits. */
  lemma SlotAlgebra(p: nat, b: Byte, pu: int, w: int)
    requires pu >= 1 && w >= 1 && pu * (4 * w) == 256
    ensures ((p * 256 + b) / pu) % 4 == (b / pu) % 4
  {
    var c := b / pu;
    assert p * 256 + b == (p * (4 * w) + c) * pu + b % pu by {
      assert b == c * pu + b % pu;
      assert p * 256 == p * (4 * w) * pu;
    }
    DivModUnique(p * 256 + b, pu, p * (4 * w) + c, b % pu);
    assert p * (4 * w) + c == (p * w + c / 4) * 4 + c % 4;
    DivModUnique(p * (4 * w) + c, 4, p * w + c / 4, c % 4);
  }

  /** Bits 2 .. of the big-endian value of a record, counted from the right, are the byte-level
      group: code i is in byte i div 4 at slot i mod 4. */
  lemma BigEndianGroup(bs: seq<Byte>, i: nat)
    requires i < 4 * |bs|
    ensures (BigEndian(bs) / Pow2(8 * |bs| - 2 - 2 * i)) % 4 == GroupCode(bs, i)
  {
    var n, j, t := |bs|, i / 4, i % 4;
    var s, u := 8 * (n - 1 - j), SlotShift(t);
    assert 8 * n - 2 - 2 * i == s + u;
    var pre, suf := bs[..j + 1], bs[j + 1..];
    assert bs == pre + suf;
    BigEndianAppend(pre, suf);

    DivModUnique(BigEndian(bs), Pow2(s), BigEndian(pre), BigEndian(suf));
    Pow2Add(s, u);
    DivDiv(BigEndian(bs), Pow2(s), Pow2(u));
    // the value of the record's first j + 1 bytes, divided by 2^u
    var p, b := BigEndian(bs[..j]), bs[j];
    assert pre[..|pre| - 1] == bs[..j];
    assert BigEndian(pre) == p * 256 + b;
    Pow2Add(u, 8 - u);
    Pow2Add(2, 6 - u);
    assert Pow2(8) == 256 && Pow2(2) == 4;
    SlotAlgebra(p, b, Pow2(u), Pow2(6 - u));
  }

  /** The reader's extraction of group i from the record as a big-endian integer
      (`(rec << 2i) & mask >> (8 * size - 2)`) is the byte-level group code. */
  lemma ReaderGroup(bs: seq<Byte>, i: nat)
    requires |bs| >= 1
    ensures ((BigEndian(bs) * Pow2(2 * i)) % Pow2(8 * |bs|)) / Pow2(8 * |bs| - 2) == GroupCode(bs, i)
  {
    var n, x := 8 * |bs|, BigEndian(bs);
    var shifted := (x * Pow2(2 * i)) % Pow2(n);
    if i < 4 * |bs| {
      ShiftMaskShift(x, n, 2 * i);
      BigEndianGroup(bs, i);
      assert shifted / Pow2(n - 2) == (x / Pow2(n - 2 - 2 * i)) % 4;
    } else {
      ShiftPastWidth(x, n, 2 * i);
      assert shifted == 0;
      assert GroupCode(bs, i) == 0;
    }
  }

  /** `_read_record`'s loop: the record as one big-endian integer, each individual's code cut
      out by shifting left, masking to the record width and shifting right; `geno` is
      overwritten in place for every individual and keeps its length. */
  method UnpackInto(geno: array<Dosage>, record: seq<Byte>)
    requires |record| >= 1
    modifies geno
    ensures geno[..] == Unpack(record, geno.Length)
  {
    var recordBits := 8 * |record|;
    var rsb: int := recordBits;
    var snpRecord := BigEndian(record);
    var limit := Pow2(recordBits);  // masking with 2^bits - 1 keeps the value modulo 2^bits
    for i := 0 to geno.Length
      invariant rsb == recordBits - 2 * i
      invariant forall j :: 0 <= j < i ==> geno[j] == GenoMap(GroupCode(record, j))
    {
      var dosTmp := (snpRecord * Pow2(recordBits - rsb)) % limit;
      dosTmp := dosTmp / Pow2(recordBits - 2);
      ReaderGroup(record, i);
      geno[i] := GenoMap(dosTmp);
      rsb := rsb - 2;
    }
  }
}
