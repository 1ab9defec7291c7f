/** The draft reader `EigenStrat` (src/EIGENTOOLS/read.py): the same cursor state machine
    as `PackedAncestryMap`, opened with fewer checks. After the record width it only
    decodes the header record and checks the "GENO" tag; the counts and hashes are never
    read, and `get_SNP_Info` hands back the draft table row with the whole table's index
    and hash still attached. */
module DraftReader {
  import opened Common
  import opened Header
  import opened Tables
  import opened Reader

  /** `EigenStrat.__init__` after the tables are read: record width, `.decode()`, tag. */
  function OpenEigenStratCheck(file: seq<Byte>, snp: SnpInfo): (r: Result<nat, OpenError>)
    ensures r == Err(SizeNotMultiple) <==> RecordSize(|file|, |snp.varName|).None?
    ensures r.Ok? <==> (RecordSize(|file|, |snp.varName|).Some?
                        && CheckTag(file[..RecordSize(|file|, |snp.varName|).value]).Ok?)
    ensures r.Ok? ==> r.value >= 4 && |file| == r.value * (|snp.varName| + 1)
    ensures r.Err? ==> r.error in {SizeNotMultiple, BadHeader(NotText), BadHeader(BadTag)}
  {
    match RecordSize(|file|, |snp.varName|)
    case None => Err(SizeNotMultiple)
    case Some(size) =>
      match CheckTag(file[..size])
      case Err(e) => Err(BadHeader(e))
      case Ok(_) => Ok(size)
  }

  /** Every file the canonical reader opens, with or without its optional checks, the draft
      opens too, with the same record width. */
  lemma DraftAcceptsCanonical(file: seq<Byte>, snp: SnpInfo, ind: IndInfo, checkHash: bool, checkSize: bool)
    requires OpenCheck(file, snp, ind, checkHash, checkSize).Ok?
    ensures OpenEigenStratCheck(file, snp) == Ok(OpenCheck(file, snp, ind, checkHash, checkSize).value.recordSize)
  {
  }

  /** What the draft rejects, the canonical reader rejects for the same reason, whatever its flags. */
  lemma DraftRejectionsAgree(file: seq<Byte>, snp: SnpInfo, ind: IndInfo, checkHash: bool, checkSize: bool)
    requires OpenEigenStratCheck(file, snp).Err?
    ensures OpenCheck(file, snp, ind, checkHash, checkSize) == Err(OpenEigenStratCheck(file, snp).error)
  {
  }

  /** The draft does not read the header fields: a header record holding only "GENO", with no
      variants, opens in the draft and is refused by the canonical reader for a missing field. */
  lemma DraftSkipsFields(file: seq<Byte>, snp: SnpInfo, ind: IndInfo, checkHash: bool, checkSize: bool)
    requires file == [71, 69, 78, 79] && snp.varName == []
    ensures OpenEigenStratCheck(file, snp) == Ok(4)
    ensures OpenCheck(file, snp, ind, checkHash, checkSize) == Err(BadHeader(MissingField))
  {
    assert RecordSize(4, 0) == Some(4);
    assert file[..4] == file;
    var text := DecodeAscii(file).value;
    assert text == "GENO";
    assert text[..4] == "GENO";
    StripNulPadding(text, 0);
    assert text + Nuls(0) == text;
    SplitWord(text, []);
    assert text + [] == text;
    assert Split([]) == [];
    assert Split(StripNul(text)) == [text];
  }

  /** `EigenStrat(...)`: opens when OpenEigenStratCheck accepts, positioned before the first
      variant; from then on it is driven by the same `Next` and `GotoSnp` as the canonical
      reader. */
  method OpenEigenStrat(file: seq<Byte>, snp: SnpInfo, ind: IndInfo) returns (r: Result<PackedAncestryMap, OpenError>)
    requires SnpWellFormed(snp) && IndWellFormed(ind)
    ensures r.Err? <==> OpenEigenStratCheck(file, snp).Err?
    ensures r.Err? ==> r.error == OpenEigenStratCheck(file, snp).error
    ensures r.Ok? ==> fresh(r.value) && fresh(r.value.geno) && r.value.Valid()
                      && r.value.iSnp == -1 && r.value.isOpen && r.value.file == file
                      && r.value.snpInfo == snp && r.value.indInfo == ind
                      && r.value.recordSize == OpenEigenStratCheck(file, snp).value
                      && r.value.headerText == StripNul(DecodeAscii(file[..r.value.recordSize]).value)
  {
    var c := OpenEigenStratCheck(file, snp);
    if c.Err? {
      return Err(c.error);
    }
    var size := c.value;
    var text := DecodeAscii(file[..size]).value;
    var m := new PackedAncestryMap.Init(file, snp, ind, size, StripNul(text));
    return Ok(m);
  }

  /** Draft `get_SNP_Info`: nothing before the first read, otherwise the current variant's row
      with the whole table's name index and hash, not a table of its own. */
  function DraftGetSnpInfo(m: PackedAncestryMap): (r: Option<SnpRowView>)
    reads m
    requires SnpColumnsAgree(m.snpInfo) && m.iSnp < m.NSnp()
    ensures r.None? <==> m.iSnp < 0
    ensures r.Some? ==> var i := m.iSnp;
                        r.value.row == SnpRow(m.snpInfo.varName[i], m.snpInfo.chrom[i], m.snpInfo.pos[i], m.snpInfo.ref[i], m.snpInfo.alt[i])
                        && r.value.nameIndex == m.snpInfo.nameIndex && r.value.hash == m.snpInfo.hash
  {
    if m.iSnp < 0 then None else Some(DraftSnpRow(m.snpInfo, m.iSnp).value)
  }

  /** The draft and the canonical `get_SNP_Info` describe the same variant; only the draft
      keeps the full table's index, in which every other variant name still resolves. */
  lemma GetSnpInfoAgree(m: PackedAncestryMap)
    requires SnpWellFormed(m.snpInfo) && 0 <= m.iSnp < m.NSnp()
    ensures DraftGetSnpInfo(m).Some? && m.GetSnpInfo().Some?
    ensures DraftGetSnpInfo(m).value.row.name == m.GetSnpInfo().value.varName[0]
    ensures DraftGetSnpInfo(m).value.nameIndex.Keys == set n | n in m.snpInfo.varName
    ensures m.GetSnpInfo().value.nameIndex.Keys == {m.snpInfo.varName[m.iSnp]}
  {
    var v := m.GetSnpInfo().value;
    forall n ensures n in m.snpInfo.nameIndex <==> n in m.snpInfo.varName {
      NameIndexLast(m.snpInfo.varName, n);
    }
    forall n ensures n in v.nameIndex <==> n in v.varName {
      NameIndexLast(v.varName, n);
    }
    assert v.varName == [m.snpInfo.varName[m.iSnp]];
  }
}
