/** Record 0 of the binary file: the text "GENO   <n_ind> <n_snp> <ind_hash> <snp_hash>"
    (counts in decimal, hashes in lower-case hex), padded with zero bytes to the
    record width; and the reader's decoding of it. */
module Header {
  import opened Common

  /** The digit character for d in base 10 or 16, lower case as `%x` prints it. */
  function DigitChar(d: nat): (c: char)
    requires d < 16
    ensures CharValue(c) == Some(d)
    ensures c == '0' <==> d == 0
  {
    if d < 10 then ('0' as int + d) as char else ('a' as int + d - 10) as char
  }

  /** `%i` (base 10) and `%x` (base 16) of a non-negative integer. */
  function ToDigits(n: nat, base: nat): (s: string)
    requires base == 10 || base == 16
    ensures |s| >= 1
    ensures forall i :: 0 <= i < |s| ==> IsDigitOf(s[i], base)
    ensures s[0] == '0' <==> n == 0
    decreases n
  {
    if n < base then [DigitChar(n)] else ToDigits(n / base, base) + [DigitChar(n % base)]
  }

  /** The value of one digit character as `int(_, 16)` reads it, either case. */
  function CharValue(c: char): Option<nat>
  {
    if '0' <= c <= '9' then Some(c as int - '0' as int)
    else if 'a' <= c <= 'f' then Some(c as int - 'a' as int + 10)
    else if 'A' <= c <= 'F' then Some(c as int - 'A' as int + 10)
    else None
  }

  /** c is a digit of the base, in either case. */
  predicate IsDigitOf(c: char, base: nat)
  {
    CharValue(c).Some? && CharValue(c).value < base
  }

  /** `int(w)` for base 10 and `int(w, 16)` for base 16, on a string of plain digits. */
  function ParseInt(w: string, base: nat): (r: Option<nat>)
    ensures r.Some? <==> w != [] && forall i :: 0 <= i < |w| ==> IsDigitOf(w[i], base)
    ensures |w| == 1 && r.Some? ==> r == CharValue(w[0])
    decreases |w|
  {
    if w == [] then None
    else
      var init, c := w[..|w| - 1], w[|w| - 1];
      assert forall i :: 0 <= i < |init| ==> init[i] == w[i];
      if !IsDigitOf(c, base) then None
      else if |w| == 1 then CharValue(c)
      else match ParseInt(init, base)
        case None => None
        case Some(v) => Some(v * base + CharValue(c).value)
  }

  /** Parsing reads back what `%i` and `%x` print. */
  lemma {:induction false} ParseToDigits(n: nat, base: nat)
    requires base == 10 || base == 16
    ensures ParseInt(ToDigits(n, base), base) == Some(n)
    decreases n
  {
    var s := ToDigits(n, base);
    if n < base {
      assert CharValue(DigitChar(n)) == Some(n);
    } else {
      ParseToDigits(n / base, base);
      assert s[..|s| - 1] == ToDigits(n / base, base);
      assert CharValue(DigitChar(n % base)) == Some(n % base);
    }
  }

  /** The characters `str.split()` treats as separators, in the ASCII range. */
  predicate IsSpace(c: char): (b: bool)
    ensures b ==> c as int < 128 && c != '\0' && CharValue(c).None?
  {
    c == ' ' || c == '\t' || c == '\n' || c == '\r' || c == '\U{B}' || c == '\U{C}'
    || ('\U{1C}' <= c <= '\U{1F}')
  }

  /** Length of the word at the start of s. */
  function WordLen(s: string): (n: nat)
    ensures n <= |s|
    ensures forall i :: 0 <= i < n ==> !IsSpace(s[i])
    ensures n < |s| ==> IsSpace(s[n])
  {
    if s == [] || IsSpace(s[0]) then 0 else 1 + WordLen(s[1..])
  }

  /** `str.split()` with no argument: the maximal runs of non-separator characters, in order. */
  function Split(s: string): (words: seq<string>)
    ensures forall i :: 0 <= i < |words| ==> IsWord(words[i])
    decreases |s|
  {
    if s == [] then []
    else if IsSpace(s[0]) then Split(s[1..])
    else
      var n := WordLen(s);
      [s[..n]] + Split(s[n..])
  }

  predicate IsWord(w: string)
  {
    w != [] && forall i :: 0 <= i < |w| ==> !IsSpace(w[i])
  }

  predicate AllSpace(s: string)
  {
    forall i :: 0 <= i < |s| ==> IsSpace(s[i])
  }

  lemma {:induction false} WordLenOfWord(w: string, rest: string)
    requires forall i :: 0 <= i < |w| ==> !IsSpace(w[i])
    requires rest == [] || IsSpace(rest[0])
    ensures WordLen(w + rest) == |w|
    decreases |w|
  {
    if w == [] {
      assert w + rest == rest;
    } else {
      assert (w + rest)[1..] == w[1..] + rest;
      WordLenOfWord(w[1..], rest);
    }
  }

  /** Leading separators do not produce words. */
  lemma {:induction false} SplitSkipsSpace(sp: string, s: string)
    requires AllSpace(sp)
    ensures Split(sp + s) == Split(s)
    decreases |sp|
  {
    if sp == [] {
      assert sp + s == s;
    } else {
      assert (sp + s)[1..] == sp[1..] + s;
      SplitSkipsSpace(sp[1..], s);
    }
  }

  /** A word followed by a separator (or nothing) splits off as the first field. */
  lemma SplitWord(w: string, rest: string)
    requires IsWord(w)
    requires rest == [] || IsSpace(rest[0])
    ensures Split(w + rest) == [w] + Split(rest)
  {
    WordLenOfWord(w, rest);
    assert (w + rest)[..|w|] == w;
    assert (w + rest)[|w|..] == rest;
  }

  /** A word, then separators, then more text, splits into the word and the split of the rest. */
  lemma SplitField(w: string, sp: string, rest: string)
    requires IsWord(w) && AllSpace(sp) && sp != []
    ensures Split(w + sp + rest) == [w] + Split(rest)
  {
    assert w + sp + rest == w + (sp + rest);
    SplitWord(w, sp + rest);
    SplitSkipsSpace(sp, rest);
  }

  lemma DigitsAreWord(n: nat, base: nat)
    requires base == 10 || base == 16
    ensures IsWord(ToDigits(n, base))
    ensures forall i :: 0 <= i < |ToDigits(n, base)| ==> 0 < ToDigits(n, base)[i] as int < 128
    decreases n
  {
    if n >= base {
      DigitsAreWord(n / base, base);
    }
  }

  /** The header text the writer formats: `"GENO   %i %i %x %x"`. */
  function HeaderText(nInd: nat, nSnp: nat, indHash: nat, snpHash: nat): (s: string)
    ensures |s| >= 14 && s[..4] == "GENO" && IsSpace(s[4])
  {
    "GENO" + "   " + ToDigits(nInd, 10) + " " + ToDigits(nSnp, 10) + " "
      + ToDigits(indHash, 16) + " " + ToDigits(snpHash, 16)
  }

  /** `bytes.decode()` on ASCII bytes; any byte outside ASCII counts as undecodable. */
  function DecodeAscii(bs: seq<Byte>): (r: Option<string>)
    ensures r.Some? ==> |r.value| == |bs|
  {
    if forall i :: 0 <= i < |bs| ==> bs[i] < 128 then Some(seq(|bs|, i requires 0 <= i < |bs| => bs[i] as char))
    else None
  }

  predicate IsAscii(s: string)
  {
    forall i :: 0 <= i < |s| ==> s[i] as int < 128
  }

  /** `str.encode()` of an ASCII string. */
  function EncodeAscii(s: string): (bs: seq<Byte>)
    requires IsAscii(s)
    ensures |bs| == |s|
    ensures DecodeAscii(bs) == Some(s)
  {
    var bs := seq(|s|, i requires 0 <= i < |s| => s[i] as int);
    assert forall i :: 0 <= i < |bs| ==> bs[i] < 128;
    assert seq(|bs|, i requires 0 <= i < |bs| => bs[i] as char) == s;
    bs
  }

  /** `raw.replace(chr(0), "")`. */
  function StripNul(s: string): (r: string)
    ensures forall i :: 0 <= i < |r| ==> r[i] != '\0'
  {
    if s == [] then []
    else if s[0] == '\0' then StripNul(s[1..])
    else [s[0]] + StripNul(s[1..])
  }

  function Nuls(n: nat): (s: string)
    ensures |s| == n
  {
    seq(n, _ => '\0')
  }

  lemma {:induction false} StripNulPadding(s: string, n: nat)
    requires forall i :: 0 <= i < |s| ==> s[i] != '\0'
    ensures StripNul(s + Nuls(n)) == s
    decreases |s| + n
  {
    if s == [] {
      if n > 0 {
        assert ([] + Nuls(n))[1..] == [] + Nuls(n - 1);
        StripNulPadding(s, n - 1);
      } else {
        assert s + Nuls(n) == [];
      }
    } else {
      assert (s + Nuls(n))[1..] == s[1..] + Nuls(n);
      StripNulPadding(s[1..], n);
    }
  }

  /** Decoding undoes encoding, and zero padding decodes to NUL characters. */
  lemma DecodeEncodePadded(s: string, n: nat)
    requires IsAscii(s)
    ensures DecodeAscii(EncodeAscii(s) + Zeros(n)) == Some(s + Nuls(n))
  {
    var bs := EncodeAscii(s) + Zeros(n);
    assert forall i :: 0 <= i < |bs| ==> bs[i] < 128;
    var text := seq(|bs|, i requires 0 <= i < |bs| => bs[i] as char);
    assert DecodeAscii(bs) == Some(text);
    forall i | 0 <= i < |text| ensures text[i] == (s + Nuls(n))[i] {
      if i < |s| {
        assert bs[i] == s[i] as int;
      } else {
        assert bs[i] == 0;
      }
    }
    assert text == s + Nuls(n);
  }

  datatype HeaderFields = HeaderFields(nInd: nat, nSnp: nat, indHash: nat, snpHash: nat)

  /** Why the reader refuses a header record. */
  datatype HeaderError =
    | NotText       // `.decode()` fails
    | BadTag        // the text does not start with "GENO"
    | MissingField  // `header_elems[k]` is out of range
    | BadNumber     // `int(...)` or `int(..., 16)` rejects a field

  /** The first two steps of reading the header record: `.decode()` and `startswith("GENO")`. */
  function CheckTag(raw: seq<Byte>): (r: Result<string, HeaderError>)
    ensures r.Ok? <==> DecodeAscii(raw).Some? && |raw| >= 4 && DecodeAscii(raw).value[..4] == "GENO"
    ensures r.Ok? ==> r.value == DecodeAscii(raw).value
    ensures DecodeAscii(raw).None? <==> r == Err(NotText)
    ensures r.Err? ==> r.error == NotText || r.error == BadTag
  {
    match DecodeAscii(raw)
    case None => Err(NotText)
    case Some(text) =>
      if |text| < 4 || text[..4] != "GENO" then Err(BadTag) else Ok(text)
  }

  /** The reader's decoding of record 0: decode, check the tag on the raw text, drop NULs,
      split, and read fields 1 and 2 in decimal and fields 3 and 4 in hex, in that order. */
  function ParseHeader(raw: seq<Byte>): (r: Result<HeaderFields, HeaderError>)
    ensures r.Ok? ==> CheckTag(raw).Ok?
    ensures CheckTag(raw).Err? ==> r == Err(CheckTag(raw).error)
    ensures CheckTag(raw).Ok? && r.Err? ==> r.error == MissingField || r.error == BadNumber
  {
    match CheckTag(raw)
    case Err(e) => Err(e)
    case Ok(text) =>
      var ws := Split(StripNul(text));
      if |ws| < 2 then Err(MissingField)
      else if ParseInt(ws[1], 10).None? then Err(BadNumber)
      else if |ws| < 3 then Err(MissingField)
      else if ParseInt(ws[2], 10).None? then Err(BadNumber)
      else if |ws| < 4 then Err(MissingField)
      else if ParseInt(ws[3], 16).None? then Err(BadNumber)
      else if |ws| < 5 then Err(MissingField)
      else if ParseInt(ws[4], 16).None? then Err(BadNumber)
      else Ok(HeaderFields(ParseInt(ws[1], 10).value, ParseInt(ws[2], 10).value,
                           ParseInt(ws[3], 16).value, ParseInt(ws[4], 16).value))
  }

  /** The header text is ASCII and contains no NUL. */
  lemma HeaderTextAscii(h: HeaderFields)
    ensures IsAscii(HeaderText(h.nInd, h.nSnp, h.indHash, h.snpHash))
    ensures forall i :: 0 <= i < |HeaderText(h.nInd, h.nSnp, h.indHash, h.snpHash)| ==>
              HeaderText(h.nInd, h.nSnp, h.indHash, h.snpHash)[i] != '\0'
  {
    DigitsAreWord(h.nInd, 10);
    DigitsAreWord(h.nSnp, 10);
    DigitsAreWord(h.indHash, 16);
    DigitsAreWord(h.snpHash, 16);
  }

  /** Record 0 as the writer emits it: the encoded header text followed by zero bytes. */
  function HeaderRecord(h: HeaderFields, width: nat): (r: seq<Byte>)
    requires |HeaderText(h.nInd, h.nSnp, h.indHash, h.snpHash)| <= width
    ensures |r| == width
  {
    var text := HeaderText(h.nInd, h.nSnp, h.indHash, h.snpHash);
    HeaderTextAscii(h);
    EncodeAscii(text) + Zeros(width - |text|)
  }

  lemma Regroup(p: string, w: string, sp: string, rest: string)
    ensures p + w + sp + rest == p + (w + sp + rest)
  {
  }

  /** Five words joined by separator runs split back into the five words. */
  lemma SplitFive(a: string, b: string, c: string, d: string, e: string, s1: string, s2: string)
    requires IsWord(a) && IsWord(b) && IsWord(c) && IsWord(d) && IsWord(e)
    requires AllSpace(s1) && s1 != [] && AllSpace(s2) && s2 != []
    ensures Split(a + s1 + b + s2 + c + s2 + d + s2 + e) == [a, b, c, d, e]
  {
    var r3 := d + s2 + e;
    var r2 := c + s2 + r3;
    var r1 := b + s2 + r2;
    Regroup(a + s1 + b + s2 + c + s2, d, s2, e);
    Regroup(a + s1 + b + s2, c, s2, r3);
    Regroup(a + s1, b, s2, r2);
    SplitWord(e, []);
    assert e + [] == e;
    SplitField(d, s2, e);
    SplitField(c, s2, r3);
    SplitField(b, s2, r2);
    SplitField(a, s1, r1);
  }

  /** The header text splits into the tag and the four fields. */
  lemma HeaderTextSplit(h: HeaderFields)
    ensures Split(HeaderText(h.nInd, h.nSnp, h.indHash, h.snpHash))
         == ["GENO", ToDigits(h.nInd, 10), ToDigits(h.nSnp, 10), ToDigits(h.indHash, 16), ToDigits(h.snpHash, 16)]
  {
    DigitsAreWord(h.nInd, 10);
    DigitsAreWord(h.nSnp, 10);
    DigitsAreWord(h.indHash, 16);
    DigitsAreWord(h.snpHash, 16);
    assert IsWord("GENO");
    SplitFive("GENO", ToDigits(h.nInd, 10), ToDigits(h.nSnp, 10), ToDigits(h.indHash, 16), ToDigits(h.snpHash, 16), "   ", " ");
  }

  /** The reader decodes the writer's header record to the fields it was built from,
      whatever the record width, as long as the text fits. */
  lemma {:induction false} HeaderRoundTrip(h: HeaderFields, width: nat)
    requires |HeaderText(h.nInd, h.nSnp, h.indHash, h.snpHash)| <= width
    ensures ParseHeader(HeaderRecord(h, width)) == Ok(h)
  {
    var text := HeaderText(h.nInd, h.nSnp, h.indHash, h.snpHash);
    HeaderTextAscii(h);
    var raw := HeaderRecord(h, width);
    var padded := text + Nuls(width - |text|);
    DecodeEncodePadded(text, width - |text|);
    assert padded[..4] == "GENO";
    StripNulPadding(text, width - |text|);
    HeaderTextSplit(h);
    ParseToDigits(h.nInd, 10);
    ParseToDigits(h.nSnp, 10);
    ParseToDigits(h.indHash, 16);
    ParseToDigits(h.snpHash, 16);
  }

  /** `max(ceil(n_ind / 4), len(header))`: one width for the header and every genotype record. */
  function RecordWidth(nInd: nat, headerLen: nat): (w: nat)
    ensures w >= CeilQuarter(nInd) && w >= headerLen
    ensures w == CeilQuarter(nInd) || w == headerLen
  {
    if CeilQuarter(nInd) >= headerLen then CeilQuarter(nInd) else headerLen
  }
}
