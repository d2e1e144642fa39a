/// seq_annotate.py: `SeqAnnotate.run`, which keys an annotation table by its
/// GenBank accession column, then reads genome records from a FASTA stream,
/// counts each under exactly one reason, and writes the long, regular,
/// L-segment genomes relabelled from their annotation row.
module SeqAnnotate {
  import opened Results
  import opened Text
  import opened Molseq
  import opened Folds
  import CleanFasta
  import FastaParser

  // ---------------------------------------------------------------------------
  // The annotation table

  /** The column that holds the GenBank accession of a row. */
  const KeyColumn := 43

  /** A table row: long enough to have the accession column. */
  type Annotation = row: seq<string> | |row| > KeyColumn witness seq(KeyColumn + 1, k => "")

  /** One row of the table loop: stored under its accession, replacing any
      earlier row with that accession; a row too short to have the column
      stops the loop (an `IndexError`) and the failure names the row. */
  function TableStep(): (map<string, Annotation>, seq<string>, nat) -> Result<map<string, Annotation>, nat> {
    (m: map<string, Annotation>, row: seq<string>, k: nat) =>
      if |row| > KeyColumn then Success(m[row[KeyColumn] := row]) else Failure(k)
  }

  /** The table built from the rows of the annotation file, in file order. */
  function Table(rows: seq<seq<string>>): Result<map<string, Annotation>, nat> {
    Fold(rows, map[], TableStep())
  }

  /** The key and the value a row gives the table, if it has them. */
  function Keyed(row: seq<string>): Option<(string, Annotation)> {
    if |row| > KeyColumn then Some((row[KeyColumn], row)) else None
  }

  method ReadAnnotations(rows: seq<seq<string>>) returns (r: Result<map<string, Annotation>, nat>)
    ensures r == Table(rows)
  {
    var annotations: map<string, Annotation> := map[];
    var i := 0;
    assert rows[..0] == [];
    while i < |rows|
      invariant 0 <= i <= |rows|
      invariant Table(rows[..i]) == Success(annotations)
    {
      assert rows[..i + 1][..i] == rows[..i];
      var row := rows[i];
      if |row| <= KeyColumn {
        assert Table(rows[..i + 1]) == Failure(i);
        FoldFailureStays(rows, i + 1, map[], TableStep());
        return Failure(i);
      }
      annotations := annotations[row[KeyColumn] := row];
      assert Table(rows[..i + 1]) == Success(annotations);
      i := i + 1;
    }
    assert rows[..i] == rows;
    r := Success(annotations);
  }

  /** The table is the rows keyed by accession when no row is short. */
  lemma {:induction false} TableIsAssign(rows: seq<seq<string>>)
    ensures Table(rows).Success? <==> forall k :: 0 <= k < |rows| ==> |rows[k]| > KeyColumn
    ensures Table(rows).Success? ==> Table(rows).value == Assign(rows, Keyed)
    ensures Table(rows).Failure? ==>
              var k := Table(rows).error;
              k < |rows| && |rows[k]| <= KeyColumn && forall j :: 0 <= j < k ==> |rows[j]| > KeyColumn
  {
    if rows != [] {
      var n := |rows| - 1;
      TableIsAssign(rows[..n]);
      assert forall j :: 0 <= j < n ==> rows[..n][j] == rows[j];
      AssignStep(rows, n, Keyed);
      assert rows[..n + 1] == rows;
    }
  }

  /** An accession is in the table exactly when some row carries it, and it
      holds the last such row: a later row replaces an earlier one. */
  lemma LaterRowWins(rows: seq<seq<string>>, accession: string)
    requires Table(rows).Success?
    ensures accession in Table(rows).value <==> exists k :: 0 <= k < |rows| && |rows[k]| > KeyColumn && rows[k][KeyColumn] == accession
    ensures accession in Table(rows).value ==>
              exists k :: 0 <= k < |rows| && rows[k] == Table(rows).value[accession]
                && rows[k][KeyColumn] == accession
                && forall j :: k < j < |rows| ==> |rows[j]| > KeyColumn && rows[j][KeyColumn] != accession
  {
    TableIsAssign(rows);
    AssignLastWins(rows, Keyed, accession);
  }

  // ---------------------------------------------------------------------------
  // The accession in a record id

  /** Where `accn\|(\S+)` can match: "accn|" followed by a non-space. */
  predicate AccessionAt(id: string, j: nat) {
    j + 5 < |id| && OccursAt(id, "accn|", j) && !IsSpace(id[j + 5])
  }

  /** The group of the leftmost match of `accn\|(\S+)` at or after `i`: the
      whole non-whitespace run after the first "accn|" that is followed by a
      non-space. */
  function AccessionFrom(id: string, i: nat): (r: Option<string>)
    requires i <= |id|
    ensures r.Some? <==> exists j :: i <= j < |id| && AccessionAt(id, j)
    ensures r.Some? ==> r.value != [] && NoSpace(r.value)
    ensures r.Some? ==> exists j :: i <= j < |id| && AccessionAt(id, j) && r.value == Word(id[j + 5..])
                           && forall j' :: i <= j' < j ==> !AccessionAt(id, j')
    decreases |id| - i
  {
    if i + 5 >= |id| then None
    else if AccessionAt(id, i) then
      assert Word(id[i + 5..]) != [];
      Some(Word(id[i + 5..]))
    else AccessionFrom(id, i + 1)
  }

  /** `ACCN_RE.search(id).group(1)`, or `None` when the pattern does not match
      (the `AttributeError` of the script). */
  function Accession(id: string): Option<string> {
    AccessionFrom(id, 0)
  }

  // ---------------------------------------------------------------------------
  // The new record id

  /** The column indices the new id is made of: genome, species, strain,
      segment, accession, collection year, isolation country, host name. */
  const IdColumns: seq<nat> := [1, 12, 15, 20, 43, 68, 70, 74]

  /** The new id: the id columns of the annotation row joined with '|'. */
  function NewId(a: seq<string>): string
    requires |a| > 74
  {
    Join([a[1], a[12], a[15], a[20], a[43], a[68], a[70], a[74]], "|")
  }

  /** When no id column holds a '|', the new id splits back into exactly those
      columns, in order. */
  lemma NewIdColumns(a: seq<string>)
    requires |a| > 74
    requires forall k :: 0 <= k < |IdColumns| ==> '|' !in a[IdColumns[k]]
    ensures Split(NewId(a), "|") == seq(|IdColumns|, k requires 0 <= k < |IdColumns| => a[IdColumns[k]])
  {
    var parts := [a[1], a[12], a[15], a[20], a[43], a[68], a[70], a[74]];
    assert forall k :: 0 <= k < |parts| ==> parts[k] == a[IdColumns[k]];
    SplitJoin(parts, '|');
  }

  // ---------------------------------------------------------------------------
  // The record loop of `run`

  /** The minimal length and the minimal ratio of regular nucleotides. */
  datatype Settings = Settings(minLength: int, minRatio: real)

  /** The counter a record goes to; a kept record carries its new id. */
  datatype Verdict =
    | IgnoredLength
    | IgnoredIrregular
    | WrongSegment
    | Kept(newId: string)

  datatype AnnotateError =
    | ShortRow(rowIndex: nat)           // a table row without column 43
    | MalformedHeader(lineIndex: nat)   // the generator failed on a header line
    | DivisionByZero                    // an empty sequence reached the ratio
    | NoAccession(id: string)           // the id has no "accn|" followed by a non-space
    | MissingAnnotation(accession: string) // the accession is not in the table
    | ShortAnnotation(accession: string)   // an L-segment row without the columns of the new id

  /** Whether a sequence reaches the length and the ratio; the ratio is
      computed first, so an empty sequence divides by zero. */
  predicate LongAndRegular(residues: string, s: Settings) {
    |residues| > 0 && |residues| >= s.minLength && RegularNaRatio(residues) >= s.minRatio
  }

  /** The decision for one record. The length test comes before the ratio
      test, and the accession is only looked for once both pass. */
  function Judge(rec: SeqRecord, table: map<string, Annotation>, s: Settings): (v: Result<Verdict, AnnotateError>)
    ensures |rec.residues| == 0 ==> v == Failure(DivisionByZero)
    ensures v == Success(IgnoredLength) <==> 0 < |rec.residues| < s.minLength
    ensures v == Success(IgnoredIrregular) <==>
              0 < |rec.residues| && s.minLength <= |rec.residues| && RegularNaRatio(rec.residues) < s.minRatio
    ensures v.Success? && (v.value.WrongSegment? || v.value.Kept?) ==>
              LongAndRegular(rec.residues, s) && Accession(rec.id).Some? && Accession(rec.id).value in table
    ensures v == Success(WrongSegment) ==> table[Accession(rec.id).value][20] != "L"
    ensures v.Success? && v.value.Kept? ==>
              var a := table[Accession(rec.id).value];
              a[20] == "L" && |a| > 74 && v.value.newId == NewId(a)
    ensures LongAndRegular(rec.residues, s) && Accession(rec.id).None? ==> v == Failure(NoAccession(rec.id))
    ensures LongAndRegular(rec.residues, s) && Accession(rec.id).Some? && Accession(rec.id).value !in table ==>
              v == Failure(MissingAnnotation(Accession(rec.id).value))
    ensures LongAndRegular(rec.residues, s) && Accession(rec.id).Some? && Accession(rec.id).value in table ==>
              var acc := Accession(rec.id).value;
              var a := table[acc];
              (a[20] != "L" ==> v == Success(WrongSegment))
              && (a[20] == "L" && |a| > 74 ==> v == Success(Kept(NewId(a))))
              && (a[20] == "L" && |a| <= 74 ==> v == Failure(ShortAnnotation(acc)))
  {
    var length := |rec.residues|;
    if length == 0 then Failure(DivisionByZero)
    else if length < s.minLength then Success(IgnoredLength)
    else if RegularNaRatio(rec.residues) < s.minRatio then Success(IgnoredIrregular)
    else
      match Accession(rec.id)
      case None => Failure(NoAccession(rec.id))
      case Some(accession) =>
        if accession !in table then Failure(MissingAnnotation(accession))
        else
          var a := table[accession];
          if a[20] == "L" then
            if |a| > 74 then Success(Kept(NewId(a))) else Failure(ShortAnnotation(accession))
          else Success(WrongSegment)
  }

  /** The counters and the records written, relabelled. */
  datatype Tally = Tally(total: nat, ignoredLength: nat, ignoredIrregular: nat, wrongSegment: nat,
                         kept: nat, written: seq<SeqRecord>)

  function Tallied(t: Tally, rec: SeqRecord, v: Verdict): Tally {
    var t := t.(total := t.total + 1);
    match v
    case IgnoredLength => t.(ignoredLength := t.ignoredLength + 1)
    case IgnoredIrregular => t.(ignoredIrregular := t.ignoredIrregular + 1)
    case WrongSegment => t.(wrongSegment := t.wrongSegment + 1)
    case Kept(newId) => t.(kept := t.kept + 1, written := t.written + [SeqRecord(newId, rec.residues)])
  }

  function EmptyTally(): Tally {
    Tally(0, 0, 0, 0, 0, [])
  }

  function RecordStep(t: Tally, rec: SeqRecord, table: map<string, Annotation>, s: Settings): Result<Tally, AnnotateError> {
    match Judge(rec, table, s)
    case Failure(e) => Failure(e)
    case Success(v) => Success(Tallied(t, rec, v))
  }

  function FilterStep(table: map<string, Annotation>, s: Settings): (Tally, SeqRecord, nat) -> Result<Tally, AnnotateError> {
    (t: Tally, rec: SeqRecord, k: nat) => RecordStep(t, rec, table, s)
  }

  /** The loop over the records, stopping at the first abort. */
  function Filter(records: seq<SeqRecord>, table: map<string, Annotation>, s: Settings): Result<Tally, AnnotateError> {
    Fold(records, EmptyTally(), FilterStep(table, s))
  }

  /** `run`: the table is read first; the records are then judged as the
      generator yields them, so the records yielded before a malformed header
      are judged, and an abort among them wins over the generator's error. */
  function Run(rows: seq<seq<string>>, lines: seq<string>, s: Settings): Result<Tally, AnnotateError> {
    match Table(rows)
    case Failure(k) => Failure(ShortRow(k))
    case Success(table) =>
      match CleanFasta.Stream(lines, true)
      case Success(records) => Filter(records, table, s)
      case Failure(e) =>
        match Filter(e.yielded, table, s)
        case Failure(z) => Failure(z)
        case Success(_) => Failure(MalformedHeader(e.lineIndex))
  }

  method AnnotateRun(rows: seq<seq<string>>, lines: seq<string>, s: Settings) returns (r: Result<Tally, AnnotateError>)
    ensures r == Run(rows, lines, s)
  {
    var table := ReadAnnotations(rows);
    if table.Failure? {
      return Failure(ShortRow(table.error));
    }
    var streamed := CleanFasta.StreamFasta(lines, true);
    var records := if streamed.Success? then streamed.value else streamed.error.yielded;
    r := FilterRecords(records, table.value, s);
    if r.Success? && streamed.Failure? {
      r := Failure(MalformedHeader(streamed.error.lineIndex));
    }
  }

  /** The tests of one record, in the order the loop body of `run` applies them. */
  method JudgeRecord(rec: SeqRecord, table: map<string, Annotation>, s: Settings) returns (v: Result<Verdict, AnnotateError>)
    ensures v == Judge(rec, table, s)
  {
    var reg := CountRegularCharsNa(rec.residues);
    var length := |rec.residues|;
    if length == 0 {
      return Failure(DivisionByZero);
    }
    var ratio := Ratio(reg, length);
    if length < s.minLength {
      return Success(IgnoredLength);
    }
    if ratio < s.minRatio {
      return Success(IgnoredIrregular);
    }
    var accession := Accession(rec.id);
    if accession.None? {
      return Failure(NoAccession(rec.id));
    }
    if accession.value !in table {
      return Failure(MissingAnnotation(accession.value));
    }
    var a := table[accession.value];
    if a[20] == "L" {
      if |a| <= 74 {
        return Failure(ShortAnnotation(accession.value));
      }
      return Success(Kept(NewId(a)));
    }
    return Success(WrongSegment);
  }

  lemma FilterNext(records: seq<SeqRecord>, i: nat, table: map<string, Annotation>, s: Settings, t: Tally)
    requires i < |records| && Filter(records[..i], table, s) == Success(t)
    ensures Filter(records[..i + 1], table, s) == RecordStep(t, records[i], table, s)
  {
    assert records[..i + 1][..i] == records[..i];
  }

  method FilterRecords(records: seq<SeqRecord>, table: map<string, Annotation>, s: Settings)
    returns (r: Result<Tally, AnnotateError>)
    ensures r == Filter(records, table, s)
  {
    var total, ignoredLength, ignoredIrregular, wrongSegment, kept := 0, 0, 0, 0, 0;
    var written: seq<SeqRecord> := [];
    var i := 0;
    assert records[..0] == [];
    assert Filter(records[..i], table, s) ==
           Success(Tally(total, ignoredLength, ignoredIrregular, wrongSegment, kept, written));
    while i < |records|
      invariant 0 <= i <= |records|
      invariant Filter(records[..i], table, s) ==
                Success(Tally(total, ignoredLength, ignoredIrregular, wrongSegment, kept, written))
    {
      var rec := records[i];
      ghost var before := Tally(total, ignoredLength, ignoredIrregular, wrongSegment, kept, written);
      FilterNext(records, i, table, s, before);
      var v := JudgeRecord(rec, table, s);
      if v.Failure? {
        FoldFailureStays(records, i + 1, EmptyTally(), FilterStep(table, s));
        return Failure(v.error);
      }
      ghost var after := Tallied(before, rec, v.value);
      assert RecordStep(before, rec, table, s) == Success(after);
      total := total + 1;
      match v.value {
        case IgnoredLength => ignoredLength := ignoredLength + 1;
        case IgnoredIrregular => ignoredIrregular := ignoredIrregular + 1;
        case WrongSegment => wrongSegment := wrongSegment + 1;
        case Kept(newId) =>
          kept := kept + 1;
          written := written + [SeqRecord(newId, rec.residues)];
      }
      assert after == Tally(total, ignoredLength, ignoredIrregular, wrongSegment, kept, written);
      assert Filter(records[..i + 1], table, s) == Success(after);
      i := i + 1;
    }
    assert records[..i] == records;
    r := Success(Tally(total, ignoredLength, ignoredIrregular, wrongSegment, kept, written));
  }

  // ---------------------------------------------------------------------------
  // Properties of the record loop

  /** What a record contributes to the output: itself under its new id, if kept. */
  function KeptOf(table: map<string, Annotation>, s: Settings): SeqRecord -> Option<SeqRecord> {
    (rec: SeqRecord) =>
      match Judge(rec, table, s)
      case Success(Kept(newId)) => Some(SeqRecord(newId, rec.residues))
      case _ => None
  }

  /** Every record counted goes to exactly one counter, and one record is
      written per kept record. */
  predicate Balanced(t: Tally) {
    t.total == t.ignoredLength + t.ignoredIrregular + t.wrongSegment + t.kept
    && t.kept == |t.written|
  }

  /** Absent an abort, every record is counted once and under exactly one
      reason, and the records written are, in record order, the kept records
      with their new ids and their sequences unchanged. */
  lemma {:induction false} FilterProperties(records: seq<SeqRecord>, table: map<string, Annotation>, s: Settings)
    requires Filter(records, table, s).Success?
    ensures Balanced(Filter(records, table, s).value)
    ensures Filter(records, table, s).value.total == |records|
    ensures Filter(records, table, s).value.written == Collect(records, KeptOf(table, s))
  {
    if records != [] {
      var n := |records| - 1;
      var prev := Filter(records[..n], table, s);
      assert prev.Success?;
      assert Filter(records, table, s) == RecordStep(prev.value, records[n], table, s);
      FilterProperties(records[..n], table, s);
      CollectStep(records, n, KeptOf(table, s));
      assert records[..n + 1] == records;
    }
  }

  /** The loop aborts exactly when some record's judgement does, and then with
      the first such record's error. */
  lemma FilterFailsIff(records: seq<SeqRecord>, table: map<string, Annotation>, s: Settings)
    ensures Filter(records, table, s).Failure? <==>
              exists k :: 0 <= k < |records| && Judge(records[k], table, s).Failure?
    ensures Filter(records, table, s).Failure? ==>
              exists k :: 0 <= k < |records| && Judge(records[k], table, s).Failure?
                && Judge(records[k], table, s).error == Filter(records, table, s).error
                && forall j :: 0 <= j < k ==> Judge(records[j], table, s).Success?
  {
    assert forall t: Tally, rec: SeqRecord, k: nat ::
      (FilterStep(table, s)(t, rec, k).Failure? <==> Judge(rec, table, s).Failure?)
      && (FilterStep(table, s)(t, rec, k).Failure? ==> FilterStep(table, s)(t, rec, k).error == Judge(rec, table, s).error);
    FoldFailsFirst(records, EmptyTally(), FilterStep(table, s), rec => Judge(rec, table, s));
  }


  /** A record that passes the length and ratio tests but whose accession has
      no row aborts the whole run, wherever it is among the records. */
  lemma MissingAnnotationAborts(records: seq<SeqRecord>, table: map<string, Annotation>, s: Settings, k: nat)
    requires k < |records| && LongAndRegular(records[k].residues, s)
    requires Accession(records[k].id).Some? && Accession(records[k].id).value !in table
    ensures Filter(records, table, s).Failure?
  {
    FilterFailsIff(records, table, s);
    assert Judge(records[k], table, s).Failure?;
  }

  /** A kept record is written with the sequence it was read with. */
  lemma KeptKeepsResidues(records: seq<SeqRecord>, table: map<string, Annotation>, s: Settings, w: SeqRecord)
    requires w in Collect(records, KeptOf(table, s))
    ensures exists k :: 0 <= k < |records| && w.residues == records[k].residues
  {
    CollectMembers(records, KeptOf(table, s), w);
    var k :| 0 <= k < |records| && KeptOf(table, s)(records[k]) == Some(w);
    assert w.residues == records[k].residues;
  }

  /** Absent an abort, the run counts one record per header line, each under
      exactly one reason, and writes exactly the kept records, relabelled, in
      order; every written sequence holds neither whitespace nor '-', so
      `to_fasta_wrapped(80)` cuts it into lines of 80 characters. */
  lemma RunProperties(rows: seq<seq<string>>, lines: seq<string>, s: Settings)
    requires Run(rows, lines, s).Success?
    ensures var t := Run(rows, lines, s).value;
      Balanced(t) && t.total == FastaParser.HeaderCount(lines)
      && t.written == Collect(CleanFasta.Stream(lines, true).value, KeptOf(Table(rows).value, s))
    ensures var t := Run(rows, lines, s).value;
      forall j :: 0 <= j < |t.written| ==> Unbreakable(t.written[j].residues)
  {
    var table := Table(rows).value;
    var records := CleanFasta.Stream(lines, true).value;
    CleanFasta.StreamProperties(lines);
    FilterProperties(records, table, s);
    var written := Run(rows, lines, s).value.written;
    forall j | 0 <= j < |written|
      ensures Unbreakable(written[j].residues)
    {
      KeptKeepsResidues(records, table, s, written[j]);
      var k :| 0 <= k < |records| && written[j].residues == records[k].residues;
      CleanFasta.StreamUnbreakable(lines, k);
    }
  }
}
