/** The file the canonical writer produces, and what the canonical reader makes of it: the
    writer's header record followed by one fixed-width record per variant opens with every
    check switched on, and each variant's record decodes to the dosages written for it. */
module RoundTrip {
  import opened Common
  import opened Codec
  import opened Header
  import opened Tables
  import opened Reader
  import opened Writer

  /** Dosages for n individuals per record. */
  predicate Rectangular(records: seq<seq<Dosage>>, n: nat)
  {
    forall k :: 0 <= k < |records| ==> |records[k]| == n
  }

  /** The records as `write_record` appends them, one after another. */
  function EncodeRecords(records: seq<seq<Dosage>>, n: nat, width: nat): (r: seq<Byte>)
    requires Rectangular(records, n) && CeilQuarter(n) <= width
    ensures |r| == |records| * width
  {
    if records == [] then []
    else
      var init := records[..|records| - 1];
      assert Rectangular(init, n);
      EncodeRecords(init, n, width) + EncodeRecord(records[|records| - 1], width)
  }

  /** Record k of the concatenation, which starts at byte `lo` = k * width, is the encoding of
      the k-th dosage list. */
  lemma {:induction false} EncodeRecordsAt(records: seq<seq<Dosage>>, n: nat, width: nat, k: nat, lo: nat)
    requires Rectangular(records, n) && CeilQuarter(n) <= width && k < |records| && lo == k * width
    ensures lo + width <= |records| * width
    ensures EncodeRecords(records, n, width)[lo..lo + width] == EncodeRecord(records[k], width)
  {
    var last := |records| - 1;
    var init := records[..last];
    assert Rectangular(init, n);
    var front := EncodeRecords(init, n, width);
    var whole := EncodeRecords(records, n, width);
    assert whole == front + EncodeRecord(records[last], width);
    MulSucc(k, width);
    MulSucc(last, width);
    if k < last {
      EncodeRecordsAt(init, n, width, k, lo);
      SliceLeft(front, EncodeRecord(records[last], width), lo, lo + width);
      assert init[k] == records[k];
    } else {
      assert lo == |front|;
      SliceRight(front, EncodeRecord(records[last], width), lo, lo + width);
    }
  }

  /** The width the writer chooses for a pair of tables. */
  function WriterWidth(snp: SnpInfo, ind: IndInfo): (w: nat)
    ensures w >= CeilQuarter(|ind.indName|)
    ensures w >= |HeaderText(|ind.indName|, |snp.varName|, ind.hash, snp.hash)|
  {
    var h := HeaderOf(snp, ind);
    RecordWidth(|ind.indName|, |HeaderText(h.nInd, h.nSnp, h.indHash, h.snpHash)|)
  }

  /** The `.geno` bytes of a writer built with `write_header` set, after one successful
      `write_record` per entry of `records`. */
  function WrittenFile(snp: SnpInfo, ind: IndInfo, records: seq<seq<Dosage>>): (file: seq<Byte>)
    requires Rectangular(records, |ind.indName|)
    ensures |file| == (|records| + 1) * WriterWidth(snp, ind)
  {
    var w := WriterWidth(snp, ind);
    MulSucc(|records|, w);
    HeaderRecord(HeaderOf(snp, ind), w) + EncodeRecords(records, |ind.indName|, w)
  }

  /** The written file opens with the hash and size checks on, at the writer's width. */
  lemma WrittenFileOpens(snp: SnpInfo, ind: IndInfo, records: seq<seq<Dosage>>)
    requires Rectangular(records, |ind.indName|) && |records| == |snp.varName|
    ensures OpenCheck(WrittenFile(snp, ind, records), snp, ind, true, true)
            == Ok(Opened(WriterWidth(snp, ind), HeaderOf(snp, ind)))
  {
    var w := WriterWidth(snp, ind);
    var h := HeaderOf(snp, ind);
    var file := WrittenFile(snp, ind, records);
    var header := HeaderRecord(h, w);
    assert file == header + EncodeRecords(records, |ind.indName|, w);
    assert RecordSize(|file|, |snp.varName|) == Some(w) by {
      DivModUnique(|file|, |snp.varName| + 1, w, 0);
    }
    assert ParseHeader(file[..w]) == Ok(h) by {
      assert file[..w] == header;
      HeaderRoundTrip(h, w);
    }
  }

  /** Variant k's record of the written file is the encoding of the k-th dosage list. */
  lemma WrittenRecordAt(snp: SnpInfo, ind: IndInfo, records: seq<seq<Dosage>>, k: nat)
    requires Rectangular(records, |ind.indName|) && k < |records|
    ensures (k + 2) * WriterWidth(snp, ind) <= |WrittenFile(snp, ind, records)|
    ensures RecordOf(WrittenFile(snp, ind, records), WriterWidth(snp, ind), k)
            == EncodeRecord(records[k], WriterWidth(snp, ind))
  {
    var w := WriterWidth(snp, ind);
    var header := HeaderRecord(HeaderOf(snp, ind), w);
    var body := EncodeRecords(records, |ind.indName|, w);
    assert WrittenFile(snp, ind, records) == header + body;
    FileRecord(header, body, records, |ind.indName|, w, k);
  }

  /** Record k of a header record followed by the encoded records is the k-th encoding. */
  lemma FileRecord(header: seq<Byte>, body: seq<Byte>, records: seq<seq<Dosage>>, n: nat, w: nat, k: nat)
    requires |header| == w && Rectangular(records, n) && CeilQuarter(n) <= w && k < |records|
    requires body == EncodeRecords(records, n, w)
    ensures (k + 2) * w <= |header + body|
    ensures RecordOf(header + body, w, k) == EncodeRecord(records[k], w)
  {
    var lo := k * w;
    MulNat(k, w);
    RecordOfAppend(header, body, w, k, |records|);
    EncodeRecordsAt(records, n, w, k, lo);
  }

  /** Record k of a record-0 prefix followed by n records is record k of the body. */
  lemma RecordOfAppend(header: seq<Byte>, body: seq<Byte>, w: nat, k: nat, n: nat)
    requires |header| == w && |body| == n * w && k < n
    ensures k * w + w <= |body|
    ensures (k + 2) * w <= |header + body|
    ensures RecordOf(header + body, w, k) == body[k * w..k * w + w]
  {
    var lo := k * w;
    MulSucc(k, w);
    MulSucc(k + 1, w);
    MulMono(k + 1, n, w);
    SliceRight(header, body, w + lo, w + lo + w);
  }

  /** Variant k's record of the written file decodes to the k-th dosage list. */
  lemma WrittenRecordDecodes(snp: SnpInfo, ind: IndInfo, records: seq<seq<Dosage>>, k: nat)
    requires Rectangular(records, |ind.indName|) && k < |records|
    ensures (k + 2) * WriterWidth(snp, ind) <= |WrittenFile(snp, ind, records)|
    ensures Unpack(RecordOf(WrittenFile(snp, ind, records), WriterWidth(snp, ind), k), |ind.indName|)
            == records[k]
  {
    WrittenRecordAt(snp, ind, records, k);
    RecordRoundTrip(records[k], WriterWidth(snp, ind));
  }

  /** Writing one record per variant and reading the file back: the open succeeds with the
      hash and size checks on, and every variant's record decodes to what was written. */
  lemma ReaderReadsWriterOutput(snp: SnpInfo, ind: IndInfo, records: seq<seq<Dosage>>, k: nat)
    requires Rectangular(records, |ind.indName|) && |records| == |snp.varName| && k < |records|
    ensures OpenCheck(WrittenFile(snp, ind, records), snp, ind, true, true)
            == Ok(Opened(WriterWidth(snp, ind), HeaderOf(snp, ind)))
    ensures (k + 2) * WriterWidth(snp, ind) <= |WrittenFile(snp, ind, records)|
    ensures Unpack(RecordOf(WrittenFile(snp, ind, records), WriterWidth(snp, ind), k), |ind.indName|)
            == records[k]
  {
    WrittenFileOpens(snp, ind, records);
    WrittenRecordDecodes(snp, ind, records, k);
  }

  /** One more successful `write_record` appends one record to the written file. */
  lemma WrittenFileSnoc(snp: SnpInfo, ind: IndInfo, records: seq<seq<Dosage>>, r: seq<Dosage>)
    requires Rectangular(records, |ind.indName|) && |r| == |ind.indName|
    ensures Rectangular(records + [r], |ind.indName|)
    ensures WrittenFile(snp, ind, records + [r])
            == WrittenFile(snp, ind, records) + EncodeRecord(r, WriterWidth(snp, ind))
  {
    var rs := records + [r];
    assert rs[..|rs| - 1] == records;
  }

  /** The dosages handed to `write_record` as values it recognises. */
  function AsValues(ds: seq<Dosage>): (vs: seq<Value>)
    ensures AllRecognised(vs) && Dosages(vs) == ds
  {
    var vs := seq(|ds|, i requires 0 <= i < |ds| => Dose(ds[i]));
    assert forall i :: 0 <= i < |ds| ==> vs[i] == Dose(ds[i]);
    vs
  }

  /** A writer built with `write_header` set that has so far been given the dosage lists `done`. */
  ghost predicate Writing(w: PackedAncestryMapWriter, snp: SnpInfo, ind: IndInfo, done: seq<seq<Dosage>>)
    reads w
  {
    w.Valid() && !w.isClosed && w.nInd == |ind.indName| && w.recordSize == WriterWidth(snp, ind)
    && Rectangular(done, |ind.indName|) && w.out == WrittenFile(snp, ind, done)
  }

  /** A writer built with `write_header` set, then given each dosage list in turn through
      `write_record`, holds exactly the written file and has counted the records down. */
  method WriteAll(snp: SnpInfo, ind: IndInfo, records: seq<seq<Dosage>>) returns (w: PackedAncestryMapWriter)
    requires SnpColumnsAgree(snp) && IndColumnsAgree(ind)
    requires Rectangular(records, |ind.indName|)
    ensures w.Valid() && !w.isClosed
    ensures w.out == WrittenFile(snp, ind, records)
    ensures w.recordsLeft == |snp.varName| - |records|
  {
    w := StartWriting(snp, ind);
    for k := 0 to |records|
      invariant Writing(w, snp, ind, records[..k])
      invariant w.recordsLeft == |snp.varName| - k
    {
      WriteNext(w, snp, ind, records, k);
    }
    assert records[..|records|] == records;
  }

  /** The writer's constructor with `write_header` set: the written file of no records. */
  method StartWriting(snp: SnpInfo, ind: IndInfo) returns (w: PackedAncestryMapWriter)
    requires SnpColumnsAgree(snp) && IndColumnsAgree(ind)
    ensures fresh(w) && Writing(w, snp, ind, []) && w.recordsLeft == |snp.varName|
  {
    w := new PackedAncestryMapWriter(snp, ind, true);
    assert EncodeRecords([], |ind.indName|, w.recordSize) == [];
  }

  /** One turn of WriteAll: `write_record` with dosage list k extends the written file by that
      list's record. */
  method WriteNext(w: PackedAncestryMapWriter, snp: SnpInfo, ind: IndInfo, records: seq<seq<Dosage>>, k: nat)
    requires Rectangular(records, |ind.indName|) && k < |records|
    requires Writing(w, snp, ind, records[..k])
    modifies w`out, w`recordsLeft
    ensures Writing(w, snp, ind, records[..k + 1]) && w.recordsLeft == old(w.recordsLeft) - 1
  {
    var r := w.WriteRecord(AsValues(records[k]));
    assert records[..k + 1] == records[..k] + [records[k]];
    WrittenFileSnoc(snp, ind, records[..k], records[k]);
  }

  /** Reading variants in order with `__next__` k + 1 times from a fresh reader leaves the same
      record in `geno` as `goto_snp` to variant k's name on a second reader over the same file,
      wherever that one stands, when variant k is the last with its name. */
  method NextAgreesWithGoto(a: PackedAncestryMap, b: PackedAncestryMap, k: nat)
    requires a != b && a.geno != b.geno
    requires a.Valid() && b.Valid() && a.iSnp == -1 && b.isOpen
    requires a.file == b.file && a.snpInfo == b.snpInfo && a.recordSize == b.recordSize
    requires a.geno.Length == b.geno.Length
    requires k < a.NSnp()
    requires forall j :: k < j < a.NSnp() ==> a.snpInfo.varName[j] != a.snpInfo.varName[k]
    modifies a, a.geno, b, b.geno
    ensures a.iSnp == k && b.iSnp == k
    ensures a.geno[..] == b.geno[..] == Unpack(a.VariantRecord(k), a.geno.Length)
  {
    var i := 0;
    while i <= k
      invariant 0 <= i <= k + 1
      invariant a.Valid() && a.isOpen && a.iSnp == i - 1
      invariant b.Valid() && b.isOpen
    {
      var s := a.Next();
      i := i + 1;
    }
    var r := b.GotoSnp(a.snpInfo.varName[k]);
    assert r.Ok?;
  }
}
