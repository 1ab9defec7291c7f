/** The draft writer (src/EIGENTOOLS/write.py). It packs dosages with the same loop as the
    canonical writer. But it takes the individual count from the variant table and the
    variant count from the individual table, always writes the header, and checks neither
    a record's length nor whether it is closed (it has no `close`). */
module DraftWriter {
  import opened Common
  import opened Codec
  import opened Header
  import opened Tables
  import opened Reader
  import opened Writer

  /** The draft's header fields: the canonical writer's with the two counts exchanged, so the
      two agree only when there are as many variants as individuals. */
  function DraftHeaderOf(snp: SnpInfo, ind: IndInfo): (h: HeaderFields)
    ensures h == HeaderOf(snp, ind).(nInd := HeaderOf(snp, ind).nSnp, nSnp := HeaderOf(snp, ind).nInd)
    ensures h == HeaderOf(snp, ind) <==> |snp.varName| == |ind.indName|
  {
    HeaderFields(|snp.varName|, |ind.indName|, ind.hash, snp.hash)
  }

  /** The bytes one complete draft record adds: the packed values and then
      `recordSize - min_byte_per_record` zero bytes, whatever the number of values. */
  function DraftRecordBytes(values: seq<Value>, recordSize: nat, minBytePerRecord: nat): (r: seq<Byte>)
    requires minBytePerRecord <= recordSize
    ensures |r| == CeilQuarter(|values|) + recordSize - minBytePerRecord
    ensures r[..CeilQuarter(|values|)] == Pack(ValueCodes(values))
    ensures r[CeilQuarter(|values|)..] == Zeros(recordSize - minBytePerRecord)
  {
    Pack(ValueCodes(values)) + Zeros(recordSize - minBytePerRecord)
  }

  /** The draft `PackedAncestryMapWriter`. */
  class DraftPackedAncestryMapWriter {
    /** `_nind`, which the draft sets to the number of variants. */
    const nInd: nat
    /** `_nsnp`, which the draft sets to the number of individuals. */
    const nSnp: nat
    const fields: HeaderFields
    const minBytePerRecord: nat
    const recordSize: nat
    var out: seq<Byte>

    predicate Valid()
    {
      fields.nInd == nInd && fields.nSnp == nSnp && minBytePerRecord == CeilQuarter(nInd)
      && recordSize == RecordWidth(nInd, |HeaderText(fields.nInd, fields.nSnp, fields.indHash, fields.snpHash)|)
    }

    /** Draft `__init__`: the swapped counts size the records and fill the header, which is
        always written. */
    constructor (snp: SnpInfo, ind: IndInfo)
      ensures Valid() && fields == DraftHeaderOf(snp, ind)
      ensures nInd == |snp.varName| && nSnp == |ind.indName|
      ensures out == HeaderRecord(fields, recordSize)
    {
      var h := DraftHeaderOf(snp, ind);
      var text := HeaderText(h.nInd, h.nSnp, h.indHash, h.snpHash);
      HeaderTextAscii(h);
      var header := EncodeAscii(text);
      var minBytes := CeilQuarter(|snp.varName|);
      var size := if minBytes >= |header| then minBytes else |header|;
      nInd := |snp.varName|;
      nSnp := |ind.indName|;
      fields := h;
      minBytePerRecord := minBytes;
      recordSize := size;
      out := header + Zeros(size - |header|);
    }

    /** Draft `write_record`: every value is packed, however many there are; an unknown value
        raises KeyError after the full bytes before it were written. */
    method WriteRecord(values: seq<Value>) returns (r: Result<(), WriteError>)
      requires Valid()
      modifies this`out
      ensures AllRecognised(values) ==>
                r == Ok(()) && out == old(out) + DraftRecordBytes(values, recordSize, minBytePerRecord)
      ensures !AllRecognised(values) ==>
                var b := RecognisedPrefix(values);
                r == Err(BadDosage) && out == old(out) + Pack(ValueCodes(values)[..b - b % 4])
    {
      var written, complete := PackValues(values);
      out := out + written;
      if !complete {
        return Err(BadDosage);
      }
      out := out + Zeros(recordSize - minBytePerRecord);
      return Ok(());
    }
  }

  /** A complete draft record is one record wide only when the values fill as many bytes as
      the variant count would: with more individuals than that, it is longer. */
  lemma DraftRecordOverruns(values: seq<Value>, snp: SnpInfo, recordSize: nat)
    requires CeilQuarter(|snp.varName|) < CeilQuarter(|values|) && CeilQuarter(|snp.varName|) <= recordSize
    ensures |DraftRecordBytes(values, recordSize, CeilQuarter(|snp.varName|))| > recordSize
  {
  }

  /** One variant and five individuals: the draft writes a header of some width R and a record
      of R + 1 bytes, 2R + 1 in all, which is not two whole records, so the reader refuses the
      file whatever its flags. */
  lemma DraftFileRejected(snp: SnpInfo, ind: IndInfo, values: seq<Value>, checkHash: bool, checkSize: bool)
    requires |snp.varName| == 1 && |ind.indName| == 5 && |values| == 5 && AllRecognised(values)
    ensures var h := DraftHeaderOf(snp, ind);
            var width := RecordWidth(1, |HeaderText(h.nInd, h.nSnp, h.indHash, h.snpHash)|);
            var file := HeaderRecord(h, width) + DraftRecordBytes(values, width, CeilQuarter(1));
            OpenCheck(file, snp, ind, checkHash, checkSize) == Err(SizeNotMultiple)
  {
    var h := DraftHeaderOf(snp, ind);
    var width := RecordWidth(1, |HeaderText(h.nInd, h.nSnp, h.indHash, h.snpHash)|);
    var file := HeaderRecord(h, width) + DraftRecordBytes(values, width, CeilQuarter(1));
    assert CeilQuarter(1) == 1 && CeilQuarter(5) == 2;
    assert |file| == 2 * width + 1;
    assert RecordSize(|file|, 1).None?;
  }
}
