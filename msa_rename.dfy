/// msa_rename.py: `MsaRename.rename` reads a tab-separated id-to-name map,
/// parses an alignment in FASTA form and writes every sequence again under
/// the name its label maps to. `parse_fasta_file` is the same reader as
/// fasta_parser.py's (`FastaParser.Parse`, here without gap removal).
module MsaRename {
  import opened Results
  import opened Text
  import opened Folds
  import opened Molseq
  import opened MolseqClass
  import FastaParser

  datatype RenameError =
    | OutputExists
    | DuplicateId(id: string)
      /** A map line without a tab (`s[1]` raises `IndexError`). */
    | ShortMapLine(lineIndex: nat)
    | Fasta(error: FastaParser.ParseError)
    | NoMapping(seqLabel: string)

  /** `id_name_dic`, `mapping_counter` and the names reported as duplicates. */
  datatype IdMap = IdMap(names: map<string, string>, counter: nat, duplicateNames: seq<string>)

  function Fields(raw: string): (s: seq<string>)
    ensures |s| >= 1
  {
    Split(Strip(raw), "\t")
  }

  /** One map line: a known id aborts, a known name is only reported. */
  function MapStep(st: IdMap, raw: string, k: nat): Result<IdMap, RenameError> {
    RowStep(st, Fields(raw), k)
  }

  /** One map line split into its fields `s`. */
  function RowStep(st: IdMap, s: seq<string>, k: nat): Result<IdMap, RenameError>
    requires |s| >= 1
  {
    if s[0] in st.names then Failure(DuplicateId(s[0]))
    else if |s| < 2 then Failure(ShortMapLine(k))
    else
      Success(IdMap(st.names[s[0] := s[1]], st.counter + 1,
                    st.duplicateNames + (if s[1] in st.names.Values then [s[1]] else [])))
  }

  function MapLineStep(): (IdMap, string, nat) -> Result<IdMap, RenameError> {
    (st: IdMap, raw: string, k: nat) => MapStep(st, raw, k)
  }

  function ReadIdMap(lines: seq<string>): Result<IdMap, RenameError> {
    Fold(lines, IdMap(map[], 0, []), MapLineStep())
  }

  lemma {:induction false} ReadIdMapStep(lines: seq<string>, i: nat, st: IdMap)
    requires i < |lines| && ReadIdMap(lines[..i]) == Success(st)
    ensures ReadIdMap(lines[..i + 1]) == MapStep(st, lines[i], i)
  {
    assert lines[..i + 1][..i] == lines[..i];
  }

  /** One pass of the map-reading loop over line `raw`, the `k`-th. */
  method ReadMapLine(names: map<string, string>, counter: nat, duplicateNames: seq<string>, raw: string, k: nat)
    returns (r: Result<IdMap, RenameError>)
    ensures r == MapStep(IdMap(names, counter, duplicateNames), raw, k)
  {
    var s := Fields(raw);
    if s[0] in names {
      return Failure(DuplicateId(s[0]));
    }
    if |s| < 2 {
      return Failure(ShortMapLine(k));
    }
    var reported: seq<string> := [];
    if s[1] in names.Values {
      reported := [s[1]];
    }
    r := Success(IdMap(names[s[0] := s[1]], counter + 1, duplicateNames + reported));
  }

  /** The map-reading loop of `rename`. */
  method BuildIdMap(lines: seq<string>) returns (r: Result<IdMap, RenameError>)
    ensures r == ReadIdMap(lines)
  {
    var names: map<string, string> := map[];
    var counter := 0;
    var duplicateNames: seq<string> := [];
    var i := 0;
    assert lines[..0] == [];
    assert ReadIdMap(lines[..0]) == Success(IdMap(names, counter, duplicateNames));
    while i < |lines|
      invariant 0 <= i <= |lines|
      invariant ReadIdMap(lines[..i]) == Success(IdMap(names, counter, duplicateNames))
    {
      ReadIdMapStep(lines, i, IdMap(names, counter, duplicateNames));
      var next := ReadMapLine(names, counter, duplicateNames, lines[i], i);
      if next.Failure? {
        FoldFailureStays(lines, i + 1, IdMap(map[], 0, []), MapLineStep());
        return Failure(next.error);
      }
      names, counter, duplicateNames := next.value.names, next.value.counter, next.value.duplicateNames;
      assert ReadIdMap(lines[..i + 1]) == Success(IdMap(names, counter, duplicateNames));
      i := i + 1;
    }
    assert lines[..i] == lines;
    r := Success(IdMap(names, counter, duplicateNames));
  }

  /** The text `rename` writes for one sequence under its new label:
      `to_fasta()` (60 characters per line) and a line break. */
  function Entry(newLabel: string, residues: string): string {
    ">" + newLabel + "\n" + Wrap(residues, 60) + "\n"
  }

  function EntryOf(names: map<string, string>): SeqRecord -> Result<Option<string>, ()> {
    (rec: SeqRecord) => if rec.id in names then Success(Some(Entry(names[rec.id], rec.residues))) else Failure(())
  }

  /** The relabelling loop: the entries written, or the first label without
      a mapping. */
  function Relabel(records: seq<SeqRecord>, names: map<string, string>): Result<seq<string>, RenameError> {
    GatherIsCollect(records, EntryOf(names));
    match Gather(records, EntryOf(names))
    case Failure(k) => Failure(NoMapping(records[k].id))
    case Success(texts) => Success(texts)
  }

  /** `rename(msa_file, id_map_file, outfile)`: what is written, entry by
      entry. */
  function Rename(mapLines: seq<string>, fastaLines: seq<string>, outputExists: bool): Result<seq<string>, RenameError> {
    if outputExists then Failure(OutputExists)
    else
      match ReadIdMap(mapLines)
      case Failure(e) => Failure(e)
      case Success(m) =>
        match FastaParser.Parse(fastaLines, false)
        case Failure(e) => Failure(Fasta(e))
        case Success(records) => Relabel(records, m.names)
  }

  /** The labels and sequences the objects hold. */
  function Records(seqs: seq<MolseqClass.MolSeq>): (rs: seq<SeqRecord>)
    reads seqs
    ensures |rs| == |seqs|
    ensures forall i :: 0 <= i < |seqs| ==> rs[i] == SeqRecord(seqs[i].seqLabel, seqs[i].residues)
  {
    if seqs == [] then []
    else Records(seqs[..|seqs| - 1]) + [SeqRecord(seqs[|seqs| - 1].seqLabel, seqs[|seqs| - 1].residues)]
  }

  /** One pass of the output loop for a sequence whose label is mapped:
      `set_label` with the new name, then `to_fasta()` and a line break. */
  method RelabelOne(m: MolseqClass.MolSeq, names: map<string, string>) returns (text: string)
    requires m.seqLabel in names
    modifies m
    ensures m.seqLabel == names[old(m.seqLabel)] && m.residues == old(m.residues)
    ensures text == Entry(names[old(m.seqLabel)], m.residues)
  {
    m.SetLabel(names[m.seqLabel]);
    var fasta := m.ToFasta(60);
    text := fasta + "\n";
  }

  /** The output loop of `rename`: each sequence object gets its new label
      by `set_label` and is written with `to_fasta()`. */
  method RelabelAll(seqs: seq<MolseqClass.MolSeq>, names: map<string, string>) returns (r: Result<seq<string>, RenameError>)
    requires forall i, j :: 0 <= i < j < |seqs| ==> seqs[i] != seqs[j]
    modifies seqs
    ensures r == Relabel(old(Records(seqs)), names)
    ensures forall i :: 0 <= i < |seqs| ==> seqs[i].residues == old(seqs[i].residues)
    ensures r.Success? ==> forall i :: 0 <= i < |seqs| ==>
      old(seqs[i].seqLabel) in names && seqs[i].seqLabel == names[old(seqs[i].seqLabel)]
  {
    ghost var records := Records(seqs);
    var out: seq<string> := [];
    var i := 0;
    assert records[..0] == [];
    while i < |seqs|
      invariant 0 <= i <= |seqs|
      invariant Gather(records[..i], EntryOf(names)) == Success(out)
      invariant forall j :: 0 <= j < |seqs| ==> seqs[j].residues == records[j].residues
      invariant forall j :: i <= j < |seqs| ==> seqs[j].seqLabel == records[j].id
      invariant forall j :: 0 <= j < i ==> records[j].id in names && seqs[j].seqLabel == names[records[j].id]
    {
      GatherStep(records, i, EntryOf(names), out);
      var m := seqs[i];
      if m.seqLabel !in names {
        GatherFailureStays(records, i + 1, EntryOf(names));
        return Failure(NoMapping(m.seqLabel));
      }
      assert m.seqLabel == records[i].id && m.residues == records[i].residues;
      var text := RelabelOne(m, names);
      assert forall j :: 0 <= j < |seqs| && j != i ==> seqs[j] != m;
      assert EntryOf(names)(records[i]) == Success(Some(text));
      out := out + [text];
      i := i + 1;
    }
    assert records[..i] == records;
    r := Success(out);
  }

  // Properties of the map.

  /** A line that repeats an id aborts; one that repeats only a name is
      reported and still added, and counted. */
  lemma MapLine(st: IdMap, raw: string, k: nat)
    ensures Fields(raw)[0] in st.names ==> MapStep(st, raw, k) == Failure(DuplicateId(Fields(raw)[0]))
    ensures Fields(raw)[0] !in st.names && |Fields(raw)| >= 2 ==>
      var s := Fields(raw);
      MapStep(st, raw, k).Success?
      && MapStep(st, raw, k).value.names == st.names[s[0] := s[1]]
      && MapStep(st, raw, k).value.counter == st.counter + 1
      && (s[1] in st.names.Values <==> |MapStep(st, raw, k).value.duplicateNames| == |st.duplicateNames| + 1)
  {
  }

  /** The fields of each line. */
  function Rows(lines: seq<string>): (rows: seq<seq<string>>)
    ensures |rows| == |lines|
    ensures forall k :: 0 <= k < |lines| ==> rows[k] == Fields(lines[k])
  {
    seq(|lines|, k requires 0 <= k < |lines| => Fields(lines[k]))
  }

  predicate NonEmptyRows(rows: seq<seq<string>>) {
    forall k :: 0 <= k < |rows| ==> |rows[k]| >= 1
  }

  /** What a complete read of the rows has built in `m`. */
  predicate Summarises(m: IdMap, rows: seq<seq<string>>) {
    m.counter == |m.names| == |rows| && MapsRows(m.names, rows) && DistinctIds(rows) && IdsFromRows(m.names, rows)
  }

  /** Every row has a name, and its id is mapped to it. */
  predicate MapsRows(names: map<string, string>, rows: seq<seq<string>>) {
    forall k :: 0 <= k < |rows| ==> |rows[k]| >= 2 && rows[k][0] in names && names[rows[k][0]] == rows[k][1]
  }

  predicate DistinctIds(rows: seq<seq<string>>) {
    forall j, k :: 0 <= j < k < |rows| && |rows[j]| >= 1 && |rows[k]| >= 1 ==> rows[j][0] != rows[k][0]
  }

  predicate IdsFromRows(names: map<string, string>, rows: seq<seq<string>>) {
    forall id :: id in names ==> exists k :: 0 <= k < |rows| && |rows[k]| >= 1 && rows[k][0] == id
  }

  lemma MapsRowsStep(names: map<string, string>, prefix: seq<seq<string>>, s: seq<string>)
    requires MapsRows(names, prefix) && |s| >= 2 && s[0] !in names
    ensures MapsRows(names[s[0] := s[1]], prefix + [s])
  {
    var rows := prefix + [s];
    forall k | 0 <= k < |rows|
      ensures |rows[k]| >= 2 && rows[k][0] in names[s[0] := s[1]] && names[s[0] := s[1]][rows[k][0]] == rows[k][1]
    {
      if k < |prefix| {
        assert rows[k] == prefix[k];
      }
    }
  }

  lemma DistinctIdsStep(names: map<string, string>, prefix: seq<seq<string>>, s: seq<string>)
    requires MapsRows(names, prefix) && DistinctIds(prefix) && |s| >= 1 && s[0] !in names
    ensures DistinctIds(prefix + [s])
  {
    var rows := prefix + [s];
    forall j, k | 0 <= j < k < |rows| && |rows[j]| >= 1 && |rows[k]| >= 1
      ensures rows[j][0] != rows[k][0]
    {
      assert rows[j] == prefix[j];
      if k < |prefix| {
        assert rows[k] == prefix[k];
      } else {
        assert rows[k] == s;
      }
    }
  }

  lemma IdsFromRowsStep(names: map<string, string>, prefix: seq<seq<string>>, s: seq<string>, name: string)
    requires IdsFromRows(names, prefix) && |s| >= 1
    ensures IdsFromRows(names[s[0] := name], prefix + [s])
  {
    var rows := prefix + [s];
    var after := names[s[0] := name];
    forall id | id in after
      ensures exists k :: 0 <= k < |rows| && |rows[k]| >= 1 && rows[k][0] == id
    {
      if id != s[0] {
        var k :| 0 <= k < |prefix| && |prefix[k]| >= 1 && prefix[k][0] == id;
        assert rows[k] == prefix[k];
      } else {
        assert rows[|prefix|] == s;
      }
    }
  }

  lemma RowStepKeeps(rows: seq<seq<string>>, st: IdMap)
    requires |rows| > 0 && NonEmptyRows(rows) && Summarises(st, rows[..|rows| - 1])
    requires RowStep(st, rows[|rows| - 1], |rows| - 1).Success?
    ensures Summarises(RowStep(st, rows[|rows| - 1], |rows| - 1).value, rows)
  {
    var n := |rows| - 1;
    var s := rows[n];
    var prefix := rows[..n];
    assert rows == prefix + [s];
    var m := RowStep(st, s, n).value;
    assert s[0] !in st.names && |s| >= 2;
    assert m.names == st.names[s[0] := s[1]] && m.counter == st.counter + 1;
    assert m.names.Keys == st.names.Keys + {s[0]};
    MapsRowsStep(st.names, prefix, s);
    DistinctIdsStep(st.names, prefix, s);
    IdsFromRowsStep(st.names, prefix, s, s[1]);
  }

  /** After a complete read, the counter is the number of ids, every line's
      id is mapped to its name, the ids of the lines are distinct, and every
      id comes from a line. */
  lemma {:induction false} ReadIdMapProperties(lines: seq<string>)
    requires ReadIdMap(lines).Success?
    ensures Summarises(ReadIdMap(lines).value, Rows(lines))
  {
    if lines != [] {
      var n := |lines| - 1;
      ReadIdMapLast(lines);
      ReadIdMapProperties(lines[..n]);
      RowStepKeeps(Rows(lines), ReadIdMap(lines[..n]).value);
    }
  }

  /** The map read from all lines is the one read from all but the last,
      extended by the last line's row. */
  lemma ReadIdMapLast(lines: seq<string>)
    requires lines != [] && ReadIdMap(lines).Success?
    ensures var n := |lines| - 1;
      ReadIdMap(lines[..n]).Success?
      && Rows(lines)[..n] == Rows(lines[..n]) && NonEmptyRows(Rows(lines))
      && ReadIdMap(lines) == RowStep(ReadIdMap(lines[..n]).value, Rows(lines)[n], n)
  {
    var n := |lines| - 1;
    var st := ReadIdMap(lines[..n]).value;
    ReadIdMapStep(lines, n, st);
    assert lines[..n + 1] == lines;
  }

  /** A map whose lines repeat an id cannot be read. */
  lemma RepeatedIdAborts(lines: seq<string>, j: nat, k: nat)
    requires j < k < |lines|
    ensures Fields(lines[j])[0] == Fields(lines[k])[0] ==> ReadIdMap(lines).Failure?
  {
    if ReadIdMap(lines).Success? {
      ReadIdMapProperties(lines);
      assert Rows(lines)[j] == Fields(lines[j]) && Rows(lines)[k] == Fields(lines[k]);
    }
  }

  // Properties of the relabelling.

  /** The run fails at the first sequence whose label has no mapping;
      otherwise it writes one entry per sequence, in order, each under the
      mapped name with the sequence unchanged. */
  lemma RelabelProperties(records: seq<SeqRecord>, names: map<string, string>)
    ensures Relabel(records, names).Failure? <==> exists k :: 0 <= k < |records| && records[k].id !in names
    ensures Relabel(records, names).Failure? ==>
      exists k :: 0 <= k < |records| && records[k].id !in names
        && Relabel(records, names).error == NoMapping(records[k].id)
        && forall j :: 0 <= j < k ==> records[j].id in names
    ensures Relabel(records, names).Success? ==>
      var texts := Relabel(records, names).value;
      |texts| == |records|
      && forall k :: 0 <= k < |records| ==> texts[k] == Entry(names[records[k].id], records[k].residues)
  {
    var g := EntryOf(names);
    GatherIsCollect(records, g);
    if Gather(records, g).Success? {
      AllYield(records, g);
    }
  }

  lemma {:induction false} AllYield(records: seq<SeqRecord>, g: SeqRecord -> Result<Option<string>, ()>)
    requires forall k :: 0 <= k < |records| ==> g(records[k]).Success? && g(records[k]).value.Some?
    ensures |Collect(records, Yield(g))| == |records|
    ensures forall k :: 0 <= k < |records| ==> Collect(records, Yield(g))[k] == g(records[k]).value.value
  {
    if records != [] {
      var n := |records| - 1;
      AllYield(records[..n], g);
      assert Yield(g)(records[n]) == Some(g(records[n]).value.value);
    }
  }

  /** Removing the line breaks of an entry's body gives back the sequence. */
  lemma EntryKeepsSequence(newLabel: string, residues: string)
    requires '\n' !in residues
    ensures var e := Entry(newLabel, residues);
      |e| >= |newLabel| + 3 && e[..|newLabel| + 2] == ">" + newLabel + "\n" && e[|e| - 1] == '\n'
      && Unwrap(e[|newLabel| + 2..|e| - 1]) == residues
  {
    var e := Entry(newLabel, residues);
    assert e[|newLabel| + 2..|e| - 1] == Wrap(residues, 60);
    UnwrapWrap(residues, 60);
  }
}
