/** The writer side: packing one record's dosages into bytes, and the
    `PackedAncestryMapWriter` state machine that emits the header record and
    then one fixed-width record per variant. The `.geno` file is the byte
    sequence `out`; the two text side files are not modelled. */
module Writer {
  import opened Common
  import opened Codec
  import opened Header
  import opened Tables
  import opened Reader

  /** Why `write_record` refuses a record. */
  datatype WriteError =
    | WrongLength    // ValueError: the record is not one dosage per individual
    | WriterClosed   // ValueError: the writer was closed
    | BadDosage      // ValueError (KeyError in the draft): a value `val_map` does not know

  predicate AllRecognised(vs: seq<Value>)
  {
    forall i :: 0 <= i < |vs| ==> vs[i].Dose?
  }

  function Dosages(vs: seq<Value>): (ds: seq<Dosage>)
    requires AllRecognised(vs)
    ensures |ds| == |vs| && forall i :: 0 <= i < |vs| ==> Dose(ds[i]) == vs[i]
  {
    seq(|vs|, i requires 0 <= i < |vs| => vs[i].dosage)
  }

  /** `val_map` applied to each value; an unrecognised value, which the writer never encodes,
      is given code 0 here only to keep the function total. */
  function ValueCodes(vs: seq<Value>): (cs: seq<Code>)
    ensures |cs| == |vs|
    ensures forall i :: 0 <= i < |vs| && vs[i].Dose? ==> cs[i] == CodeOf(vs[i].dosage)
  {
    seq(|vs|, i requires 0 <= i < |vs| => if vs[i].Dose? then CodeOf(vs[i].dosage) else 0)
  }

  lemma ValueCodesOfDosages(vs: seq<Value>)
    requires AllRecognised(vs)
    ensures ValueCodes(vs) == Codes(Dosages(vs))
  {
  }

  /** The length of the longest prefix of recognised values: the position of the first bad one,
      or the whole length. */
  function RecognisedPrefix(vs: seq<Value>): (n: nat)
    ensures n <= |vs| && AllRecognised(vs[..n])
    ensures n < |vs| ==> vs[n].Unrecognised?
    ensures n == |vs| <==> AllRecognised(vs)
  {
    if vs == [] then 0
    else if vs[0].Unrecognised? then 0
    else
      var n := 1 + RecognisedPrefix(vs[1..]);
      assert vs[..n] == [vs[0]] + vs[1..][..n - 1];
      n
  }

  /** A group of one to four codes packs into the single byte PackByte describes. */
  lemma PackGroup(g: seq<Code>)
    requires 1 <= |g| <= 4
    ensures 0 <= PackByte(g) < 256
    ensures Pack(g) == [PackByte(g) as Byte]
  {
    PackByteSlots(g, 0);
    assert g[|g|..] == [];
  }

  /** Adding code i to the group that starts at `base` adds it at shift 6 - 2 * (i - base). */
  lemma PackStep(cs: seq<Code>, base: nat, i: nat)
    requires base <= i < |cs| && i - base < 4
    ensures PackByte(cs[base..i + 1]) == PackByte(cs[base..i]) + cs[i] * Pow2(6 - 2 * (i - base))
  {
    assert cs[base..i + 1][..i - base] == cs[base..i];
  }

  /** Writing out the group that starts at a group boundary extends the packing by its byte. */
  lemma PackFlush(cs: seq<Code>, groups: nat, j: nat)
    requires 4 * groups < j <= |cs| && j - 4 * groups <= 4
    ensures 0 <= PackByte(cs[4 * groups..j]) < 256
    ensures Pack(cs[..j]) == Pack(cs[..4 * groups]) + [PackByte(cs[4 * groups..j]) as Byte]
  {
    var g := cs[4 * groups..j];
    PackGroup(g);
    PackAppend(cs[..4 * groups], g);
    assert cs[..4 * groups] + g == cs[..j];
  }

  /** The writer's loop state after i codes: the full bytes written so far are the packing of
      the first `groups` groups, and `record` holds the rest of the codes read so far. */
  ghost predicate Packing(cs: seq<Code>, groups: nat, i: nat, written: seq<Byte>, record: int)
  {
    4 * groups <= i <= |cs| && i - 4 * groups < 4
    && written == Pack(cs[..4 * groups]) && record == PackByte(cs[4 * groups..i])
  }

  /** One turn of the writer's loop: code c, the i-th, joins the byte being collected at
      `shiftBy`; when that completes the byte, the byte is written and a new group begins. */
  lemma PackLoopStep(cs: seq<Code>, groups: nat, i: nat, written: seq<Byte>, record: int, shiftBy: int, shifted: int)
    requires Packing(cs, groups, i, written, record) && i < |cs|
    requires shiftBy == 6 - 2 * (i - 4 * groups) && shifted == cs[i] * Pow2(shiftBy)
    ensures shiftBy == 0 ==>
              0 <= record + shifted < 256
              && Packing(cs, groups + 1, i + 1, written + [(record + shifted) as Byte], 0)
    ensures shiftBy != 0 ==> Packing(cs, groups, i + 1, written, record + shifted)
  {
    var base := 4 * groups;
    PackStep(cs, base, i);
    assert record + shifted == PackByte(cs[base..i + 1]);
    if i - base == 3 {
      var next := 4 * (groups + 1);
      assert next == i + 1;
      PackFlush(cs, groups, next);
      assert cs[next..next] == [];
    }
  }

  /** After the loop: the partial byte, if any, completes the packing. */
  lemma PackLoopEnd(cs: seq<Code>, groups: nat, i: nat, written: seq<Byte>, record: int)
    requires Packing(cs, groups, i, written, record) && i == |cs|
    ensures |cs| > 4 * groups ==> 0 <= record < 256 && written + [record as Byte] == Pack(cs)
    ensures |cs| == 4 * groups ==> written == Pack(cs)
  {
    assert cs[..|cs|] == cs;
    if |cs| > 4 * groups {
      PackFlush(cs, groups, |cs|);
    }
  }

  /** A recognised value at the end of a recognised prefix extends it. */
  lemma PrefixGrows(values: seq<Value>, i: nat)
    requires i < |values| && values[i].Dose? && RecognisedPrefix(values) >= i
    ensures RecognisedPrefix(values) >= i + 1
  {
  }

  /** The first unrecognised value after a recognised prefix is where RecognisedPrefix stops. */
  lemma FirstBadValue(values: seq<Value>, i: nat)
    requires i < |values| && values[i].Unrecognised? && RecognisedPrefix(values) >= i
    ensures RecognisedPrefix(values) == i
  {
  }

  /** The start of the group holding position b. */
  lemma GroupStart(b: nat, groups: nat)
    requires 4 * groups <= b < 4 * groups + 4
    ensures b - b % 4 == 4 * groups
  {
    DivModUnique(b, 4, groups, b - 4 * groups);
  }

  /** Stopping at the first unrecognised value leaves the full bytes of the groups before it. */
  lemma StopAtBad(values: seq<Value>, groups: nat, i: nat, written: seq<Byte>, record: int, shiftBy: int)
    requires PackingValues(values, groups, i, written, record, shiftBy) && i < |values| && values[i].Unrecognised?
    ensures !AllRecognised(values)
    ensures var b := RecognisedPrefix(values); written == Pack(ValueCodes(values)[..b - b % 4])
  {
    var b := RecognisedPrefix(values);
    FirstBadValue(values, i);
    assert b == i;
    GroupStart(i, groups);
    assert b - b % 4 == 4 * groups;
  }

  /** The state of `write_record`'s loop after i values: the codes read so far are packed as
      `Packing` says, `shift_by` is where the next code goes, and every value read was recognised. */
  ghost predicate PackingValues(values: seq<Value>, groups: nat, i: nat, written: seq<Byte>, record: int, shiftBy: int)
  {
    Packing(ValueCodes(values), groups, i, written, record)
    && shiftBy == 6 - 2 * (i - 4 * groups) && RecognisedPrefix(values) >= i
  }

  /** One turn of `write_record`'s loop on a recognised value, shifted into place by `shiftBy`. */
  lemma PackValuesStep(values: seq<Value>, groups: nat, i: nat, written: seq<Byte>, record: int, shiftBy: nat, shifted: int)
    requires PackingValues(values, groups, i, written, record, shiftBy) && i < |values|
    requires values[i].Dose? && shifted == CodeOf(values[i].dosage) * Pow2(shiftBy)
    ensures shiftBy == 0 ==>
              0 <= record + shifted < 256
              && PackingValues(values, groups + 1, i + 1, written + [(record + shifted) as Byte], 0, 6)
    ensures shiftBy != 0 ==>
              shiftBy >= 2 && PackingValues(values, groups, i + 1, written, record + shifted, shiftBy - 2)
  {
    PrefixGrows(values, i);
    PackLoopStep(ValueCodes(values), groups, i, written, record, shiftBy, shifted);
  }

  /** After the loop every value was recognised, and the partial byte, if any, completes the
      packing. */
  lemma PackValuesEnd(values: seq<Value>, groups: nat, i: nat, written: seq<Byte>, record: int, shiftBy: int)
    requires PackingValues(values, groups, i, written, record, shiftBy) && i >= |values|
    ensures AllRecognised(values)
    ensures shiftBy != 6 ==> 0 <= record < 256 && written + [record as Byte] == Pack(ValueCodes(values))
    ensures shiftBy == 6 ==> written == Pack(ValueCodes(values))
  {
    PackLoopEnd(ValueCodes(values), groups, i, written, record);
  }

  /** The loop of `write_record`: `shift_by` counts down 6, 4, 2, 0 while `record` collects the
      codes, each full byte is written as soon as it is complete, a final partial byte after the
      loop. It stops at the first value `val_map` rejects, having written only the full bytes
      before it. */
  method PackValues(values: seq<Value>) returns (written: seq<Byte>, complete: bool)
    ensures complete ==> AllRecognised(values) && written == Pack(ValueCodes(values))
    ensures !complete ==>
              !AllRecognised(values)
              && var b := RecognisedPrefix(values); written == Pack(ValueCodes(values)[..b - b % 4])
  {
    ghost var groups := 0;  // full bytes written so far; the group held in `record` starts at 4 * groups
    var shiftBy: nat := 6;
    var record := 0;
    written := [];
    var i := 0;
    while i < |values|
      invariant PackingValues(values, groups, i, written, record, shiftBy)
    {
      if values[i].Unrecognised? {
        StopAtBad(values, groups, i, written, record, shiftBy);
        return written, false;
      }
      var c := CodeOf(values[i].dosage);
      var shifted := c * Pow2(shiftBy);  // `val_map[v] << shift_by`
      PackValuesStep(values, groups, i, written, record, shiftBy, shifted);
      if shiftBy == 0 {
        record := record + shifted;
        written := written + [record as Byte];
        record := 0;
        shiftBy := 6;
        i := i + 1;
        groups := groups + 1;
        continue;
      }
      record := record + shifted;
      shiftBy := shiftBy - 2;
      i := i + 1;
    }
    PackValuesEnd(values, groups, i, written, record, shiftBy);
    ghost var packed := Pack(ValueCodes(values));
    if shiftBy != 6 {
      written := written + [record as Byte];
    }
    assert written == packed;
    return written, true;
  }

  /** The header fields the writer puts in record 0. */
  function HeaderOf(snp: SnpInfo, ind: IndInfo): (h: HeaderFields)
    ensures FieldsCheck(h, snp, ind, true, true).None?
  {
    HeaderFields(|ind.indName|, |snp.varName|, ind.hash, snp.hash)
  }

  /** `PackedAncestryMapWriter`: the counts and widths fixed at construction, the open flag, the
      number of records still expected, and the bytes of the `.geno` file so far. */
  class PackedAncestryMapWriter {
    const nInd: nat
    const nSnp: nat
    const fields: HeaderFields
    const minBytePerRecord: nat
    const recordSize: nat
    var isClosed: bool
    var recordsLeft: int
    var out: seq<Byte>

    /** The fixed part: header fields from the counts, a record wide enough for both the packed
        dosages and the header text. */
    predicate Valid()
    {
      fields.nInd == nInd && fields.nSnp == nSnp && minBytePerRecord == CeilQuarter(nInd)
      && recordSize == RecordWidth(nInd, |HeaderText(fields.nInd, fields.nSnp, fields.indHash, fields.snpHash)|)
    }

    /** `__init__`: counts and hashes from the tables, `ceil(nind / 4)` bytes of dosages, a record
        size of at least the header's length; the header record is written when asked. */
    constructor (snp: SnpInfo, ind: IndInfo, writeHeader: bool)
      requires SnpColumnsAgree(snp) && IndColumnsAgree(ind)
      ensures Valid() && fields == HeaderOf(snp, ind) && nInd == |ind.indName| && nSnp == |snp.varName|
      ensures out == if writeHeader then HeaderRecord(fields, recordSize) else []
      ensures !isClosed && recordsLeft == |snp.varName|
    {
      var h := HeaderOf(snp, ind);
      var text := HeaderText(h.nInd, h.nSnp, h.indHash, h.snpHash);
      HeaderTextAscii(h);
      var header := EncodeAscii(text);
      var minBytes := CeilQuarter(|ind.indName|);
      var size := if minBytes >= |header| then minBytes else |header|;
      nInd := |ind.indName|;
      nSnp := |snp.varName|;
      fields := h;
      minBytePerRecord := minBytes;
      recordSize := size;
      isClosed := false;
      recordsLeft := |snp.varName|;
      out := if writeHeader then header + Zeros(size - |header|) else [];
    }

    /** `write_record`: the length is checked before the closed flag; a good record appends
        exactly one record's width of bytes; a bad value stops it part-way. */
    method WriteRecord(values: seq<Value>) returns (r: Result<(), WriteError>)
      requires Valid()
      modifies this`out, this`recordsLeft
      ensures |values| != nInd ==> r == Err(WrongLength) && out == old(out) && recordsLeft == old(recordsLeft)
      ensures |values| == nInd && isClosed ==>
                r == Err(WriterClosed) && out == old(out) && recordsLeft == old(recordsLeft)
      ensures |values| == nInd && !isClosed && AllRecognised(values) ==>
                r == Ok(()) && out == old(out) + EncodeRecord(Dosages(values), recordSize)
                && recordsLeft == old(recordsLeft) - 1
      ensures |values| == nInd && !isClosed && !AllRecognised(values) ==>
                var b := RecognisedPrefix(values);
                r == Err(BadDosage) && out == old(out) + Pack(ValueCodes(values)[..b - b % 4])
                && recordsLeft == old(recordsLeft)
    {
      if |values| != nInd {
        return Err(WrongLength);
      } else if isClosed {
        return Err(WriterClosed);
      }
      var written, complete := PackValues(values);
      out := out + written;
      if !complete {
        return Err(BadDosage);
      }
      ValueCodesOfDosages(values);
      out := out + Zeros(recordSize - minBytePerRecord);
      recordsLeft := recordsLeft - 1;
      return Ok(());
    }

    /** `close`: the first call closes the file and warns when the number of records written is
        not the number of variants; later calls do nothing. */
    method Close() returns (warned: bool)
      modifies this`isClosed
      ensures isClosed
      ensures warned <==> !old(isClosed) && recordsLeft != 0
    {
      if isClosed {
        return false;
      }
      warned := recordsLeft != 0;
      isClosed := true;
    }
  }
}
