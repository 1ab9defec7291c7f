/** The two metadata tables the codec reads its names from: the variant table
    (`SNP_Info`) with its name -> position index, and the individual table
    (`Ind_Info`) with its label -> positions index; each also carries the
    integrity hash of its names. Tables are values: every operation builds a
    new table. */
module Tables {
  import opened Common
  import opened Hash

  /** One parsed line of the variant file (the `cm` column is not modelled). */
  datatype SnpRow = SnpRow(name: string, chrom: string, pos: int, ref: string, alt: string)

  /** One parsed line of the individual file. */
  datatype IndRow = IndRow(name: string, sex: string, popLabel: string)

  /** `SNP_Info`: one column per field, the name index and the hash of the names. */
  datatype SnpInfo = SnpInfo(
    varName: seq<string>, chrom: seq<string>, pos: seq<int>, ref: seq<string>, alt: seq<string>,
    nameIndex: map<string, nat>, hash: nat)

  /** `Ind_Info`: one column per field, the label index and the hash of the names. */
  datatype IndInfo = IndInfo(
    indName: seq<string>, sex: seq<string>, labels: seq<string>,
    labelIndex: map<string, seq<nat>>, hash: nat)

  datatype TableError = IndexOutOfRange | UnknownName | UnknownLabel

  /** `__len__`'s assertion: all columns have the same length. */
  predicate SnpColumnsAgree(t: SnpInfo)
  {
    |t.chrom| == |t.varName| && |t.pos| == |t.varName| && |t.ref| == |t.varName| && |t.alt| == |t.varName|
  }

  predicate IndColumnsAgree(t: IndInfo)
  {
    |t.sex| == |t.indName| && |t.labels| == |t.indName|
  }

  // ---------------------------------------------------------------------------
  // The name index

  /** The name index `_reverse_index` builds: each name maps to the position written last. */
  function NameIndex(names: seq<string>): (m: map<string, nat>)
    ensures forall k :: k in m ==> m[k] < |names| && names[m[k]] == k
  {
    if names == [] then map[]
    else NameIndex(names[..|names| - 1])[names[|names| - 1] := |names| - 1]
  }

  /** A name is indexed iff it occurs, and it maps to the last position that holds it. */
  lemma {:induction false} NameIndexLast(names: seq<string>, k: string)
    ensures k in NameIndex(names) <==> k in names
    ensures k in NameIndex(names) ==>
              NameIndex(names)[k] < |names| && names[NameIndex(names)[k]] == k
              && forall j :: NameIndex(names)[k] < j < |names| ==> names[j] != k
  {
    if names != [] {
      var init := names[..|names| - 1];
      NameIndexLast(init, k);
      assert names == init + [names[|names| - 1]];
    }
  }

  /** The index of a concatenation: positions from the second part win, shifted by the first part's length. */
  lemma {:induction false} NameIndexAppend(xs: seq<string>, ys: seq<string>, k: string)
    ensures k in NameIndex(xs + ys) <==> k in NameIndex(xs) || k in NameIndex(ys)
    ensures k in NameIndex(ys) ==> NameIndex(xs + ys)[k] == |xs| + NameIndex(ys)[k]
    ensures k in NameIndex(xs) && k !in NameIndex(ys) ==> NameIndex(xs + ys)[k] == NameIndex(xs)[k]
  {
    if ys == [] {
      assert xs + ys == xs;
    } else {
      var init := ys[..|ys| - 1];
      assert (xs + ys)[..|xs + ys| - 1] == xs + init;
      NameIndexAppend(xs, init, k);
    }
  }

  /** `SNP_Info._reverse_index`: the loop that fills the dictionary in position order. */
  method SnpReverseIndex(names: seq<string>) returns (out: map<string, nat>)
    ensures out == NameIndex(names)
  {
    out := map[];
    for i := 0 to |names|
      invariant out == NameIndex(names[..i])
    {
      assert names[..i + 1][..i] == names[..i];
      out := out[names[i] := i];
    }
    assert names[..|names|] == names;
  }

  /** A variant table as every constructor and operation leaves it: equal columns, index and
      hash computed from the current names. */
  predicate SnpWellFormed(t: SnpInfo)
  {
    SnpColumnsAgree(t) && t.nameIndex == NameIndex(t.varName) && t.hash == HashList(t.varName)
  }

  /** The columns of a variant table read from `rows`, in file order. */
  predicate SnpHoldsRows(t: SnpInfo, rows: seq<SnpRow>)
  {
    SnpColumnsAgree(t) && |t.varName| == |rows|
    && forall i :: 0 <= i < |rows| ==>
         rows[i] == SnpRow(t.varName[i], t.chrom[i], t.pos[i], t.ref[i], t.alt[i])
  }

  /** `SNP_Info.__init__` after each line has been split: append the fields line by line,
      then build the index with `_reverse_index` and hash the names. */
  method NewSnpInfo(rows: seq<SnpRow>) returns (t: SnpInfo)
    ensures SnpWellFormed(t) && SnpHoldsRows(t, rows)
  {
    var varName, chrom, pos, ref, alt := [], [], [], [], [];
    for i := 0 to |rows|
      invariant |varName| == |chrom| == |pos| == |ref| == |alt| == i
      invariant forall j :: 0 <= j < i ==> rows[j] == SnpRow(varName[j], chrom[j], pos[j], ref[j], alt[j])
    {
      varName := varName + [rows[i].name];
      chrom := chrom + [rows[i].chrom];
      pos := pos + [rows[i].pos];
      ref := ref + [rows[i].ref];
      alt := alt + [rows[i].alt];
    }
    var index := SnpReverseIndex(varName);
    var hash := ComputeHashList(varName);
    t := SnpInfo(varName, chrom, pos, ref, alt, index, hash);
  }

  /** `get_var_name_idx`: the position of a name, or LookupError. */
  function VarNameIndex(t: SnpInfo, name: string): (r: Result<nat, TableError>)
    requires SnpWellFormed(t)
    ensures r.Ok? <==> name in t.varName
    ensures r.Ok? ==> r.value < |t.varName| && t.varName[r.value] == name
                      && forall j :: r.value < j < |t.varName| ==> t.varName[j] != name
    ensures r.Err? ==> r.error == UnknownName
  {
    NameIndexLast(t.varName, name);
    if name in t.nameIndex then Ok(t.nameIndex[name]) else Err(UnknownName)
  }

  // ---------------------------------------------------------------------------
  // The label index

  /** The label index `Ind_Info._reverse_index` builds: each label maps to its positions, appended in order. */
  function LabelIndex(labels: seq<string>): (m: map<string, seq<nat>>)
    ensures forall l :: l in m ==> PositionsHold(labels, l, m[l])
  {
    if labels == [] then map[]
    else
      var m := LabelIndex(labels[..|labels| - 1]);
      var l, i := labels[|labels| - 1], |labels| - 1;
      if l in m then m[l := m[l] + [i]] else m[l := [i]]
  }

  /** Every position in ps is a position of labels that holds l, and there is at least one. */
  predicate PositionsHold(labels: seq<string>, l: string, ps: seq<nat>)
  {
    ps != [] && forall j :: 0 <= j < |ps| ==> ps[j] < |labels| && labels[ps[j]] == l
  }

  predicate StrictlyIncreasing(s: seq<nat>)
  {
    forall a, b :: 0 <= a < b < |s| ==> s[a] < s[b]
  }

  /** A label is indexed iff it occurs; its list holds exactly its positions, in increasing order. */
  lemma {:induction false} LabelIndexExact(labels: seq<string>, l: string)
    ensures l in LabelIndex(labels) <==> l in labels
    ensures l in LabelIndex(labels) ==>
              StrictlyIncreasing(LabelIndex(labels)[l])
              && forall j: nat :: j in LabelIndex(labels)[l] <==> j < |labels| && labels[j] == l
  {
    if labels != [] {
      var init := labels[..|labels| - 1];
      var n := |labels| - 1;
      LabelIndexExact(init, l);
      assert labels == init + [labels[n]];
      var m := LabelIndex(init);
      if l in LabelIndex(labels) {
        var s := LabelIndex(labels)[l];
        if labels[n] == l && l in m {
          assert s == m[l] + [n];
          forall a, b | 0 <= a < b < |s| ensures s[a] < s[b] {
            if b == |m[l]| {
              assert s[a] in m[l];
            }
          }
        }
        forall j: nat ensures j in s <==> j < |labels| && labels[j] == l {
          if j < n { assert labels[j] == init[j]; }
        }
      }
    }
  }

  /** `Ind_Info._reverse_index`: the loop that appends each position to its label's list. */
  method IndReverseIndex(labels: seq<string>) returns (out: map<string, seq<nat>>)
    ensures out == LabelIndex(labels)
  {
    out := map[];
    for i := 0 to |labels|
      invariant out == LabelIndex(labels[..i])
    {
      assert labels[..i + 1][..i] == labels[..i];
      if labels[i] in out {
        out := out[labels[i] := out[labels[i]] + [i]];
      } else {
        out := out[labels[i] := [i]];
      }
    }
    assert labels[..|labels|] == labels;
  }

  predicate IndWellFormed(t: IndInfo)
  {
    IndColumnsAgree(t) && t.labelIndex == LabelIndex(t.labels) && t.hash == HashList(t.indName)
  }

  predicate IndHoldsRows(t: IndInfo, rows: seq<IndRow>)
  {
    IndColumnsAgree(t) && |t.indName| == |rows|
    && forall i :: 0 <= i < |rows| ==> rows[i] == IndRow(t.indName[i], t.sex[i], t.labels[i])
  }

  /** `Ind_Info.__init__` after each line has been split: append the fields line by line,
      then build the label index with `_reverse_index` and hash the names. */
  method NewIndInfo(rows: seq<IndRow>) returns (t: IndInfo)
    ensures IndWellFormed(t) && IndHoldsRows(t, rows)
  {
    var indName, sex, labels := [], [], [];
    for i := 0 to |rows|
      invariant |indName| == |sex| == |labels| == i
      invariant forall j :: 0 <= j < i ==> rows[j] == IndRow(indName[j], sex[j], labels[j])
    {
      indName := indName + [rows[i].name];
      sex := sex + [rows[i].sex];
      labels := labels + [rows[i].popLabel];
    }
    var index := IndReverseIndex(labels);
    var hash := ComputeHashList(indName);
    t := IndInfo(indName, sex, labels, index, hash);
  }

  /** `get_label_indices`: the positions of a label, or LookupError. */
  function LabelIndices(t: IndInfo, l: string): (r: Result<seq<nat>, TableError>)
    requires IndWellFormed(t)
    ensures r.Ok? <==> l in t.labels
    ensures r.Ok? ==> StrictlyIncreasing(r.value)
                      && forall j: nat :: j in r.value <==> j < |t.labels| && t.labels[j] == l
    ensures r.Err? ==> r.error == UnknownLabel
  {
    LabelIndexExact(t.labels, l);
    if l in t.labelIndex then Ok(t.labelIndex[l]) else Err(UnknownLabel)
  }

  // ---------------------------------------------------------------------------
  // Python indexing and slicing of a column

  /** `s[i]` for an int i: negative positions count from the end. */
  function ItemAt<T>(s: seq<T>, i: int): (r: Result<T, TableError>)
    ensures r.Ok? <==> -|s| <= i < |s|
    ensures r.Ok? ==> r.value == s[if i < 0 then i + |s| else i]
  {
    if -|s| <= i < 0 then Ok(s[i + |s|]) else if 0 <= i < |s| then Ok(s[i]) else Err(IndexOutOfRange)
  }

  /** One bound of a step-1 slice of a sequence of length n, as Python normalises it. */
  function SliceBound(n: nat, b: int): (r: nat)
    ensures r <= n
    ensures b < 0 && b + n >= 0 ==> r == b + n
    ensures b + n < 0 ==> r == 0
    ensures 0 <= b <= n ==> r == b
    ensures b > n ==> r == n
  {
    if b < 0 then (if b + n < 0 then 0 else b + n) else if b > n then n else b
  }

  /** `s[lo:hi]`. */
  function SliceOf<T>(s: seq<T>, lo: int, hi: int): (r: seq<T>)
    ensures var a, b := SliceBound(|s|, lo), SliceBound(|s|, hi);
            |r| == (if a < b then b - a else 0) && forall k :: 0 <= k < |r| ==> r[k] == s[a + k]
  {
    var a, b := SliceBound(|s|, lo), SliceBound(|s|, hi);
    if a < b then s[a..b] else []
  }

  // ---------------------------------------------------------------------------
  // Canonical views (src/EIGENTOOLS/_read.py): every view rebuilds the index and the hash

  function RebuildSnp(varName: seq<string>, chrom: seq<string>, pos: seq<int>, ref: seq<string>, alt: seq<string>): SnpInfo
  {
    SnpInfo(varName, chrom, pos, ref, alt, NameIndex(varName), HashList(varName))
  }

  /** `SNP_Info.__getitem__` with an int: a one-row table; IndexError out of range. */
  function SnpAt(t: SnpInfo, i: int): (r: Result<SnpInfo, TableError>)
    requires SnpColumnsAgree(t)
    ensures r.Ok? <==> -|t.varName| <= i < |t.varName|
    ensures r.Ok? ==> SnpWellFormed(r.value) && |r.value.varName| == 1
                      && var k := if i < 0 then i + |t.varName| else i;
                         r.value.varName == [t.varName[k]] && r.value.chrom == [t.chrom[k]]
                         && r.value.pos == [t.pos[k]] && r.value.ref == [t.ref[k]] && r.value.alt == [t.alt[k]]
                         && r.value.hash == HashStr(t.varName[k]) % TwoTo32
  {
    if -|t.varName| <= i < |t.varName| then
      var k := if i < 0 then i + |t.varName| else i;
      HashListSingleton(t.varName[k]);
      Ok(RebuildSnp([t.varName[k]], [t.chrom[k]], [t.pos[k]], [t.ref[k]], [t.alt[k]]))
    else Err(IndexOutOfRange)
  }

  /** `SNP_Info.__getitem__` with a step-1 slice: the selected rows, index and hash rebuilt. */
  function SnpSlice(t: SnpInfo, lo: int, hi: int): (r: SnpInfo)
    requires SnpColumnsAgree(t)
    ensures SnpWellFormed(r)
    ensures r.varName == SliceOf(t.varName, lo, hi) && r.pos == SliceOf(t.pos, lo, hi)
    ensures r.chrom == SliceOf(t.chrom, lo, hi) && r.ref == SliceOf(t.ref, lo, hi) && r.alt == SliceOf(t.alt, lo, hi)
  {
    RebuildSnp(SliceOf(t.varName, lo, hi), SliceOf(t.chrom, lo, hi), SliceOf(t.pos, lo, hi),
               SliceOf(t.ref, lo, hi), SliceOf(t.alt, lo, hi))
  }

  /** `SNP_Info.__add__`: rows of a then rows of b, index and hash rebuilt from the joined names. */
  function SnpConcat(a: SnpInfo, b: SnpInfo): (r: SnpInfo)
    requires SnpColumnsAgree(a) && SnpColumnsAgree(b)
    ensures SnpWellFormed(r) && r.varName == a.varName + b.varName && r.pos == a.pos + b.pos
    ensures r.chrom == a.chrom + b.chrom && r.ref == a.ref + b.ref && r.alt == a.alt + b.alt
  {
    RebuildSnp(a.varName + b.varName, a.chrom + b.chrom, a.pos + b.pos, a.ref + b.ref, a.alt + b.alt)
  }

  /** The rebuilt hash and index of a concatenation follow from the parts': the hash continues
      a's fold over b's names, and b's positions win, shifted past a. */
  lemma SnpConcatFromParts(a: SnpInfo, b: SnpInfo, k: string)
    requires SnpWellFormed(a) && SnpWellFormed(b)
    ensures SnpConcat(a, b).hash == HashFold(a.hash, b.varName)
    ensures k in SnpConcat(a, b).nameIndex <==> k in a.nameIndex || k in b.nameIndex
    ensures k in b.nameIndex ==> SnpConcat(a, b).nameIndex[k] == |a.varName| + b.nameIndex[k]
    ensures k in a.nameIndex && k !in b.nameIndex ==> SnpConcat(a, b).nameIndex[k] == a.nameIndex[k]
  {
    HashListAppend(a.varName, b.varName);
    NameIndexAppend(a.varName, b.varName, k);
  }

  function RebuildInd(indName: seq<string>, sex: seq<string>, labels: seq<string>): IndInfo
  {
    IndInfo(indName, sex, labels, LabelIndex(labels), HashList(indName))
  }

  /** `Ind_Info.__getitem__` with an int: a one-row table; IndexError out of range. */
  function IndAt(t: IndInfo, i: int): (r: Result<IndInfo, TableError>)
    requires IndColumnsAgree(t)
    ensures r.Ok? <==> -|t.indName| <= i < |t.indName|
    ensures r.Ok? ==> IndWellFormed(r.value) && |r.value.indName| == 1
                      && var k := if i < 0 then i + |t.indName| else i;
                         r.value.indName == [t.indName[k]] && r.value.sex == [t.sex[k]]
                         && r.value.labels == [t.labels[k]]
  {
    if -|t.indName| <= i < |t.indName| then
      var k := if i < 0 then i + |t.indName| else i;
      Ok(RebuildInd([t.indName[k]], [t.sex[k]], [t.labels[k]]))
    else Err(IndexOutOfRange)
  }

  /** `Ind_Info.__getitem__` with a step-1 slice. */
  function IndSlice(t: IndInfo, lo: int, hi: int): (r: IndInfo)
    requires IndColumnsAgree(t)
    ensures IndWellFormed(r)
    ensures r.indName == SliceOf(t.indName, lo, hi) && r.sex == SliceOf(t.sex, lo, hi)
    ensures r.labels == SliceOf(t.labels, lo, hi)
  {
    RebuildInd(SliceOf(t.indName, lo, hi), SliceOf(t.sex, lo, hi), SliceOf(t.labels, lo, hi))
  }

  /** `Ind_Info.__add__`. */
  function IndConcat(a: IndInfo, b: IndInfo): (r: IndInfo)
    requires IndColumnsAgree(a) && IndColumnsAgree(b)
    ensures IndWellFormed(r) && r.indName == a.indName + b.indName && r.sex == a.sex + b.sex
    ensures r.labels == a.labels + b.labels
  {
    RebuildInd(a.indName + b.indName, a.sex + b.sex, a.labels + b.labels)
  }

  /** The positions a label map holds for l, empty when l is absent. */
  function PositionsOf(m: map<string, seq<nat>>, l: string): seq<nat>
  {
    if l in m then m[l] else []
  }

  /** Appending one label adds its position to that label's list and changes no other list. */
  lemma LabelIndexSnoc(xs: seq<string>, x: string, l: string)
    ensures l in LabelIndex(xs + [x]) <==> l in LabelIndex(xs) || l == x
    ensures PositionsOf(LabelIndex(xs + [x]), l)
            == PositionsOf(LabelIndex(xs), l) + (if x == l then [|xs|] else [])
  {
    var m := LabelIndex(xs);
    var m' := if x in m then m[x := m[x] + [|xs|]] else m[x := [|xs|]];
    LabelIndexUnfold(xs, x);
    if x == l {
      assert PositionsOf(m', l) == PositionsOf(m, l) + [|xs|];
    } else {
      assert PositionsOf(m', l) == PositionsOf(m, l) + [];
    }
  }

  /** One step of LabelIndex's recursion, stated on its own. */
  lemma LabelIndexUnfold(xs: seq<string>, x: string)
    ensures var m := LabelIndex(xs);
            LabelIndex(xs + [x]) == if x in m then m[x := m[x] + [|xs|]] else m[x := [|xs|]]
  {
    var ys := xs + [x];
    assert ys[..|ys| - 1] == xs;
  }

  lemma ShiftedSnoc(s: seq<nat>, n: nat, d: nat)
    ensures Shifted(s + [n], d) == Shifted(s, d) + [n + d]
  {
  }

  /** In a concatenated individual table, a label's positions are a's followed by b's shifted past a. */
  lemma {:induction false} LabelIndexAppend(xs: seq<string>, ys: seq<string>, l: string)
    ensures l in LabelIndex(xs + ys) <==> l in LabelIndex(xs) || l in LabelIndex(ys)
    ensures PositionsOf(LabelIndex(xs + ys), l)
            == PositionsOf(LabelIndex(xs), l) + Shifted(PositionsOf(LabelIndex(ys), l), |xs|)
  {
    if ys == [] {
      assert xs + ys == xs;
      assert PositionsOf(LabelIndex(ys), l) == [];
      assert Shifted([], |xs|) == [];
    } else {
      var init, last := ys[..|ys| - 1], ys[|ys| - 1];
      assert ys == init + [last];
      SeqAssoc(xs, init, [last]);
      LabelIndexAppend(xs, init, l);
      LabelIndexSnoc(init, last, l);
      LabelIndexSnoc(xs + init, last, l);
      var a, b := PositionsOf(LabelIndex(xs), l), PositionsOf(LabelIndex(init), l);
      var whole := PositionsOf(LabelIndex(xs + init), l);
      assert whole == a + Shifted(b, |xs|);
      if last == l {
        assert PositionsOf(LabelIndex(ys), l) == b + [|init|];
        assert PositionsOf(LabelIndex(xs + ys), l) == whole + [|xs + init|];
        ShiftedSnoc(b, |init|, |xs|);
        SeqAssoc(a, Shifted(b, |xs|), [|init| + |xs|]);
      } else {
        assert PositionsOf(LabelIndex(ys), l) == b + [] == b;
        assert PositionsOf(LabelIndex(xs + ys), l) == whole + [] == whole;
      }
    }
  }

  /** The rebuilt hash and label index of a concatenated individual table follow from the parts'. */
  lemma IndConcatFromParts(a: IndInfo, b: IndInfo, l: string)
    requires IndWellFormed(a) && IndWellFormed(b)
    ensures IndConcat(a, b).hash == HashFold(a.hash, b.indName)
    ensures PositionsOf(IndConcat(a, b).labelIndex, l)
            == PositionsOf(a.labelIndex, l) + Shifted(PositionsOf(b.labelIndex, l), |a.labels|)
  {
    HashListAppend(a.indName, b.indName);
    LabelIndexAppend(a.labels, b.labels, l);
  }

  /** Every position in s moved up by d. */
  function Shifted(s: seq<nat>, d: nat): (r: seq<nat>)
    ensures |r| == |s| && forall k :: 0 <= k < |s| ==> r[k] == s[k] + d
  {
    seq(|s|, k requires 0 <= k < |s| => s[k] + d)
  }

  // ---------------------------------------------------------------------------
  // Draft views (src/EIGENTOOLS/read.py): the copy keeps the original index and hash

  /** What the draft `__getitem__` with an int returns: the row's fields as scalars, with the
      whole table's index and hash still attached. */
  datatype SnpRowView = SnpRowView(row: SnpRow, nameIndex: map<string, nat>, hash: nat)

  /** Draft `SNP_Info.__init__`: the name index is filled inside the line loop, one line at a time. */
  method DraftNewSnpInfo(rows: seq<SnpRow>) returns (t: SnpInfo)
    ensures SnpWellFormed(t) && SnpHoldsRows(t, rows)
  {
    var varName, chrom, pos, ref, alt := [], [], [], [], [];
    var index: map<string, nat> := map[];
    for i := 0 to |rows|
      invariant |varName| == |chrom| == |pos| == |ref| == |alt| == i
      invariant forall j :: 0 <= j < i ==> rows[j] == SnpRow(varName[j], chrom[j], pos[j], ref[j], alt[j])
      invariant index == NameIndex(varName)
    {
      varName := varName + [rows[i].name];
      index := index[rows[i].name := i];
      chrom := chrom + [rows[i].chrom];
      pos := pos + [rows[i].pos];
      ref := ref + [rows[i].ref];
      alt := alt + [rows[i].alt];
    }
    var hash := ComputeHashList(varName);
    t := SnpInfo(varName, chrom, pos, ref, alt, index, hash);
  }

  /** Draft `Ind_Info.__init__`: each line's position is appended to its label's list inside the loop. */
  method DraftNewIndInfo(rows: seq<IndRow>) returns (t: IndInfo)
    ensures IndWellFormed(t) && IndHoldsRows(t, rows)
  {
    var indName, sex, labels := [], [], [];
    var index: map<string, seq<nat>> := map[];
    for i := 0 to |rows|
      invariant |indName| == |sex| == |labels| == i
      invariant forall j :: 0 <= j < i ==> rows[j] == IndRow(indName[j], sex[j], labels[j])
      invariant index == LabelIndex(labels)
    {
      indName := indName + [rows[i].name];
      sex := sex + [rows[i].sex];
      labels := labels + [rows[i].popLabel];
      assert labels[..i] == labels[..|labels| - 1];
      if rows[i].popLabel in index {
        index := index[rows[i].popLabel := index[rows[i].popLabel] + [i]];
      } else {
        index := index[rows[i].popLabel := [i]];
      }
    }
    var hash := ComputeHashList(indName);
    t := IndInfo(indName, sex, labels, index, hash);
  }

  /** Draft `SNP_Info.__getitem__` with an int: the scalar fields of one row; IndexError out of range. */
  function DraftSnpRow(t: SnpInfo, i: int): (r: Result<SnpRowView, TableError>)
    requires SnpColumnsAgree(t)
    ensures r.Ok? <==> -|t.varName| <= i < |t.varName|
    ensures r.Ok? ==> r.value.nameIndex == t.nameIndex && r.value.hash == t.hash
                      && var k := if i < 0 then i + |t.varName| else i;
                         r.value.row == SnpRow(t.varName[k], t.chrom[k], t.pos[k], t.ref[k], t.alt[k])
  {
    if -|t.varName| <= i < |t.varName| then
      var k := if i < 0 then i + |t.varName| else i;
      Ok(SnpRowView(SnpRow(t.varName[k], t.chrom[k], t.pos[k], t.ref[k], t.alt[k]), t.nameIndex, t.hash))
    else Err(IndexOutOfRange)
  }

  /** Draft `SNP_Info.__getitem__` with a slice: the columns are sliced, the index and hash are not. */
  function DraftSnpSlice(t: SnpInfo, lo: int, hi: int): (r: SnpInfo)
    requires SnpColumnsAgree(t)
    ensures SnpColumnsAgree(r) && r.varName == SliceOf(t.varName, lo, hi)
    ensures r.chrom == SliceOf(t.chrom, lo, hi) && r.pos == SliceOf(t.pos, lo, hi)
            && r.ref == SliceOf(t.ref, lo, hi) && r.alt == SliceOf(t.alt, lo, hi)
    ensures r.nameIndex == t.nameIndex && r.hash == t.hash
  {
    t.(varName := SliceOf(t.varName, lo, hi), chrom := SliceOf(t.chrom, lo, hi),
       pos := SliceOf(t.pos, lo, hi), ref := SliceOf(t.ref, lo, hi), alt := SliceOf(t.alt, lo, hi))
  }

  /** Draft `Ind_Info.__getitem__` with a slice: the label index and hash are not rebuilt. */
  function DraftIndSlice(t: IndInfo, lo: int, hi: int): (r: IndInfo)
    requires IndColumnsAgree(t)
    ensures IndColumnsAgree(r) && r.indName == SliceOf(t.indName, lo, hi) && r.sex == SliceOf(t.sex, lo, hi)
            && r.labels == SliceOf(t.labels, lo, hi)
    ensures r.labelIndex == t.labelIndex && r.hash == t.hash
  {
    t.(indName := SliceOf(t.indName, lo, hi), sex := SliceOf(t.sex, lo, hi), labels := SliceOf(t.labels, lo, hi))
  }

  /** The draft slice leaves a stale index: dropping the first of two variants keeps the dropped
      name findable, so the slice is no longer a well-formed table. */
  lemma DraftSliceIndexStale(t: SnpInfo)
    requires SnpWellFormed(t) && t.varName == ["x", "y"]
    ensures !SnpWellFormed(DraftSnpSlice(t, 1, 2))
    ensures "x" in DraftSnpSlice(t, 1, 2).nameIndex && "x" !in DraftSnpSlice(t, 1, 2).varName
  {
    var r := DraftSnpSlice(t, 1, 2);
    NameIndexLast(t.varName, "x");
    assert t.varName[0] == "x";
    assert r.varName == ["y"];
    NameIndexLast(r.varName, "x");
    assert "x" !in r.varName;
  }
}
