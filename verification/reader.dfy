/** The reader side of a PACKEDANCESTRYMAP triple: the checks made when the
    binary file is opened, and the cursor state machine that walks its
    fixed-width variant records. The file's bytes and the two parsed tables are
    parameters; the open file handle is a read cursor plus an open flag. */
module Reader {
  import opened Common
  import opened Codec
  import opened Header
  import opened Tables

  /** Why opening fails, in the order the checks are made. */
  datatype OpenError =
    | SizeNotMultiple             // the file size is not (variants + 1) whole records
    | BadHeader(reason: HeaderError)
    | IndHashMismatch
    | SnpHashMismatch
    | IndCountMismatch
    | SnpCountMismatch

  /** Why `goto_snp` fails. */
  datatype GotoError = UnknownVariant | ClosedFile

  /** The outcome of one `__next__`. */
  datatype Step = Advanced | StopIteration

  /** What a successful open knows: the record width and the four header fields. */
  datatype Opened = Opened(recordSize: nat, fields: HeaderFields)

  /** `filesize / (variants + 1)`, accepted only when it is a whole number. */
  function RecordSize(fileSize: nat, nSnp: nat): (r: Option<nat>)
    ensures r.Some? <==> fileSize % (nSnp + 1) == 0
    ensures r.Some? ==> fileSize == r.value * (nSnp + 1) && r.value <= fileSize
  {
    if fileSize % (nSnp + 1) == 0 then
      var size := fileSize / (nSnp + 1);
      MulMono(1, nSnp + 1, size);
      Some(size)
    else None
  }

  lemma MulMono(a: nat, b: nat, c: nat)
    requires a <= b
    ensures a * c <= b * c
  {
    assert b * c == a * c + (b - a) * c;
  }

  lemma MulSucc(a: nat, b: nat)
    ensures (a + 1) * b == a * b + b
  {
  }

  /** Variant record k (0-based) of a file of width-`size` records; record 0 is the header. */
  function RecordOf(file: seq<Byte>, size: nat, k: nat): (r: seq<Byte>)
    requires (k + 2) * size <= |file|
    ensures |r| == size
  {
    MulMono(k + 1, k + 2, size);
    file[(k + 1) * size..(k + 2) * size]
  }

  /** The whole of `__init__` after the tables are read: record width, header, then the optional
      hash checks (individuals first) and size checks (individuals first). */
  function OpenCheck(file: seq<Byte>, snp: SnpInfo, ind: IndInfo, checkHash: bool, checkSize: bool): (r: Result<Opened, OpenError>)
    ensures r == Err(SizeNotMultiple) <==> RecordSize(|file|, |snp.varName|).None?
    ensures r.Ok? <==>
              RecordSize(|file|, |snp.varName|).Some?
              && var size := RecordSize(|file|, |snp.varName|).value;
                 ParseHeader(file[..size]).Ok?
                 && var h := ParseHeader(file[..size]).value;
                    (checkHash ==> h.indHash == ind.hash && h.snpHash == snp.hash)
                    && (checkSize ==> h.nInd == |ind.indName| && h.nSnp == |snp.varName|)
    ensures r.Ok? ==> r.value.recordSize >= 4 && |file| == r.value.recordSize * (|snp.varName| + 1)
                      && ParseHeader(file[..r.value.recordSize]) == Ok(r.value.fields)
  {
    match RecordSize(|file|, |snp.varName|)
    case None => Err(SizeNotMultiple)
    case Some(size) =>
      match ParseHeader(file[..size])
      case Err(e) => Err(BadHeader(e))
      case Ok(h) =>
        match FieldsCheck(h, snp, ind, checkHash, checkSize)
        case Some(e) => Err(e)
        case None => Ok(Opened(size, h))
  }

  /** The optional comparisons of the header with the tables: both hashes, then both counts,
      individuals first each time. */
  function FieldsCheck(h: HeaderFields, snp: SnpInfo, ind: IndInfo, checkHash: bool, checkSize: bool): (r: Option<OpenError>)
    ensures r.None? <==> (checkHash ==> h.indHash == ind.hash && h.snpHash == snp.hash)
                         && (checkSize ==> h.nInd == |ind.indName| && h.nSnp == |snp.varName|)
    ensures r.Some? ==> r.value in {IndHashMismatch, SnpHashMismatch, IndCountMismatch, SnpCountMismatch}
  {
    if checkHash && h.indHash != ind.hash then Some(IndHashMismatch)
    else if checkHash && h.snpHash != snp.hash then Some(SnpHashMismatch)
    else if checkSize && h.nInd != |ind.indName| then Some(IndCountMismatch)
    else if checkSize && h.nSnp != |snp.varName| then Some(SnpCountMismatch)
    else None
  }

  /** Turning a check off can only let more files through. */
  lemma OpenCheckMonotone(file: seq<Byte>, snp: SnpInfo, ind: IndInfo, checkHash: bool, checkSize: bool)
    requires OpenCheck(file, snp, ind, checkHash, checkSize).Ok?
    ensures OpenCheck(file, snp, ind, false, false) == OpenCheck(file, snp, ind, checkHash, checkSize)
  {
  }

  /** `PackedAncestryMap`: an open binary file, the two tables, the record cursor and the most
      recently decoded record. */
  class PackedAncestryMap {
    const file: seq<Byte>
    const snpInfo: SnpInfo
    const indInfo: IndInfo
    const recordSize: nat
    /** The header text with its NUL padding removed. */
    const headerText: string
    /** The dosages of the current variant, one per individual. */
    const geno: array<Dosage>
    /** The current variant's position; -1 before the first one is read. */
    var iSnp: int
    /** The file position of the next read. */
    var cursor: nat
    var isOpen: bool

    function NSnp(): nat
    {
      |snpInfo.varName|
    }

    /** The bytes of variant k's record. */
    function VariantRecord(k: nat): (r: seq<Byte>)
      requires k < NSnp() && |file| == recordSize * (NSnp() + 1)
      ensures |r| == recordSize
    {
      MulMono(k + 2, NSnp() + 1, recordSize);
      RecordOf(file, recordSize, k)
    }

    /** What `geno` holds: zeros before any read, otherwise the decoded record iSnp. */
    ghost function Loaded(): seq<Dosage>
      reads this
      requires -1 <= iSnp < NSnp() && |file| == recordSize * (NSnp() + 1)
    {
      if iSnp < 0 then seq(geno.Length, _ => RefHom)
      else Unpack(VariantRecord(iSnp), geno.Length)
    }

    /** What never changes after opening: the tables, the record layout of the file and the
        length of `geno`. */
    ghost predicate Layout()
    {
      SnpWellFormed(snpInfo) && IndColumnsAgree(indInfo)
      && recordSize >= 1 && |file| == recordSize * (NSnp() + 1)
      && geno.Length == |indInfo.indName|
    }

    ghost predicate Valid()
      reads this, geno
    {
      Layout()
      && -1 <= iSnp < NSnp()
      && cursor == (iSnp + 2) * recordSize
      && (!isOpen ==> iSnp == NSnp() - 1)
      && geno[..] == Loaded()
    }

    /** The state `__init__` leaves once every check has passed: the header has been read,
        nothing decoded yet. */
    constructor Init(file: seq<Byte>, snp: SnpInfo, ind: IndInfo, size: nat, headerText: string)
      requires SnpWellFormed(snp) && IndColumnsAgree(ind)
      requires size >= 1 && |file| == size * (|snp.varName| + 1)
      ensures Valid() && fresh(geno)
      ensures this.file == file && snpInfo == snp && indInfo == ind && recordSize == size
      ensures this.headerText == headerText
      ensures iSnp == -1 && isOpen
    {
      this.file := file;
      snpInfo := snp;
      indInfo := ind;
      recordSize := size;
      this.headerText := headerText;
      geno := new Dosage[|ind.indName|](_ => RefHom);
      iSnp := -1;
      cursor := size;
      isOpen := true;
    }

    /** `PackedAncestryMap(...)`: opens when OpenCheck accepts, positioned before the first variant. */
    static method Open(file: seq<Byte>, snp: SnpInfo, ind: IndInfo, checkHash: bool, checkSize: bool)
      returns (r: Result<PackedAncestryMap, OpenError>)
      requires SnpWellFormed(snp) && IndWellFormed(ind)
      ensures r.Err? <==> OpenCheck(file, snp, ind, checkHash, checkSize).Err?
      ensures r.Err? ==> r.error == OpenCheck(file, snp, ind, checkHash, checkSize).error
      ensures r.Ok? ==> fresh(r.value) && fresh(r.value.geno) && r.value.Valid()
                        && r.value.iSnp == -1 && r.value.isOpen && r.value.file == file
                        && r.value.snpInfo == snp && r.value.indInfo == ind
                        && r.value.recordSize == OpenCheck(file, snp, ind, checkHash, checkSize).value.recordSize
    ensures r.Ok? ==> r.value.recordSize <= |file| && DecodeAscii(file[..r.value.recordSize]).Some?
                      && r.value.headerText == StripNul(DecodeAscii(file[..r.value.recordSize]).value)
    {
      var c := OpenCheck(file, snp, ind, checkHash, checkSize);
      if c.Err? {
        return Err(c.error);
      }
      var size := c.value.recordSize;
      var text := DecodeAscii(file[..size]).value;
      var m := new PackedAncestryMap.Init(file, snp, ind, size, StripNul(text));
      return Ok(m);
    }

    /** `_read_record`: read one record at the cursor and decode it into `geno`. */
    method ReadRecord()
      requires recordSize >= 1 && cursor + recordSize <= |file|
      modifies this`cursor, geno
      ensures cursor == old(cursor) + recordSize
      ensures geno[..] == Unpack(file[old(cursor)..old(cursor) + recordSize], geno.Length)
    {
      var record := file[cursor..cursor + recordSize];
      UnpackInto(geno, record);
      cursor := cursor + recordSize;
    }

    /** After decoding variant k's record at its place, the reader is valid again. */
    lemma AdvancedValid(k: nat)
      requires Layout() && k < NSnp() && iSnp == k && isOpen
      requires cursor == (k + 1) * recordSize + recordSize
      requires geno[..] == Unpack(VariantRecord(k), geno.Length)
      ensures Valid()
    {
      MulSucc(k + 1, recordSize);
    }

    /** `__next__`: past the last variant the file is closed and iteration stops (again and
        again); otherwise the next record is decoded. */
    method Next() returns (s: Step)
      requires Valid()
      modifies this, geno
      ensures Valid()
      ensures old(iSnp) == NSnp() - 1 ==>
                s == StopIteration && !isOpen && iSnp == old(iSnp) && cursor == old(cursor)
                && geno[..] == old(geno[..])
      ensures old(iSnp) < NSnp() - 1 ==>
                s == Advanced && isOpen && iSnp == old(iSnp) + 1
                && geno[..] == Unpack(VariantRecord(iSnp), geno.Length)
    {
      if iSnp == NSnp() - 1 {
        isOpen := false;
        return StopIteration;
      }
      var k := iSnp + 1;
      MulMono(k + 2, NSnp() + 1, recordSize);
      MulSucc(k + 1, recordSize);
      ghost var record := VariantRecord(k);
      assert record == file[cursor..cursor + recordSize];
      ReadRecord();
      iSnp := k;
      AdvancedValid(k);
      return Advanced;
    }

    /** `goto_snp`: jump to the record of the named variant (its last occurrence). An unknown
        name is a LookupError, a closed file a ValueError; neither changes anything. */
    method GotoSnp(name: string) returns (r: Result<(), GotoError>)
      requires Valid()
      modifies this, geno
      ensures Valid()
      ensures r.Ok? <==> name in snpInfo.varName && old(isOpen)
      ensures name !in snpInfo.varName ==> r == Err(UnknownVariant)
      ensures name in snpInfo.varName && !old(isOpen) ==> r == Err(ClosedFile)
      ensures r.Err? ==> iSnp == old(iSnp) && cursor == old(cursor) && isOpen == old(isOpen)
                         && geno[..] == old(geno[..])
      ensures r.Ok? ==> isOpen && 0 <= iSnp && snpInfo.varName[iSnp] == name
                        && (forall j :: iSnp < j < NSnp() ==> snpInfo.varName[j] != name)
                        && geno[..] == Unpack(VariantRecord(iSnp), geno.Length)
    {
      var idx := VarNameIndex(snpInfo, name);
      if idx.Err? {
        return Err(UnknownVariant);
      }
      if !isOpen {
        return Err(ClosedFile);
      }
      Seek(idx.value);
      return Ok(());
    }

    /** The successful tail of `goto_snp`: seek to record i, decode it, make it current. */
    method Seek(i: nat)
      requires Layout() && isOpen && i < NSnp()
      modifies this, geno
      ensures Valid() && isOpen && iSnp == i
      ensures geno[..] == Unpack(VariantRecord(i), geno.Length)
    {
      MulMono(i + 2, NSnp() + 1, recordSize);
      MulSucc(i + 1, recordSize);
      var start := (i + 1) * recordSize;
      ghost var end := start + recordSize;
      assert end == (i + 2) * recordSize <= |file|;
      assert VariantRecord(i) == file[start..end];
      cursor := start;
      ReadRecord();
      iSnp := i;
      assert cursor == end;
      assert Loaded() == Unpack(file[start..end], geno.Length);
    }

    /** `get_SNP_Info`: nothing before the first read, otherwise the one-row table of the current variant. */
    function GetSnpInfo(): (r: Option<SnpInfo>)
      reads this
      requires SnpColumnsAgree(snpInfo) && iSnp < NSnp()
      ensures r.None? <==> iSnp < 0
      ensures r.Some? ==> SnpWellFormed(r.value) && r.value.varName == [snpInfo.varName[iSnp]]
                          && r.value.chrom == [snpInfo.chrom[iSnp]] && r.value.pos == [snpInfo.pos[iSnp]]
                          && r.value.ref == [snpInfo.ref[iSnp]] && r.value.alt == [snpInfo.alt[iSnp]]
    {
      if iSnp < 0 then None else Some(SnpAt(snpInfo, iSnp).value)
    }
  }
}
