/// fasta_parser.py: `parse_fasta_file` reads a FASTA file line by line and
/// returns one labelled sequence per record. The file is given as its lines.
module FastaParser {
  import opened Results
  import opened Text
  import opened Molseq
  import opened Folds
  import opened FileSections

  /** The parse stops (an `AttributeError`) at the first header line with no
      label: one that is exactly `>` once stripped. */
  datatype ParseError = EmptyHeader(lineIndex: nat)

  /** Group 1 of `>\s*(.+)` searched in a stripped header line: the text after
      the leading whitespace, up to the first line break. */
  function HeaderLabel(line: string): (r: Option<string>)
    requires line != [] && line[0] == '>'
    ensures r.None? <==> TrimLeft(line[1..]) == []
    ensures r.Some? ==> r.value != [] && !IsSpace(r.value[0]) && '\n' !in r.value
    ensures r.Some? ==> r.value <= TrimLeft(line[1..])
  {
    var t := TrimLeft(line[1..]);
    if t == [] then None
    else
      assert t[0] != '\n';
      var k := Find(t, "\n");
      if k == -1 then
        NoNewlineBefore(t, |t|);
        Some(t)
      else
        assert t[k..k + 1] == "\n";
        NoNewlineBefore(t, k);
        Some(t[..k])
  }

  /** No line break occurs in `t` before the first place `find` could report. */
  lemma NoNewlineBefore(t: string, k: nat)
    requires k <= |t|
    requires forall j :: 0 <= j < k ==> !OccursAt(t, "\n", j)
    ensures '\n' !in t[..k]
  {
    forall j | 0 <= j < k ensures t[j] != '\n' {
      assert !OccursAt(t, "\n", j);
      assert t[j..j + 1] == [t[j]];
    }
  }

  /** For a stripped line, the label is missing exactly when the line is `>`. */
  lemma HeaderLabelMissingIff(line: string)
    requires line != [] && line[0] == '>' && Strip(line) == line
    ensures HeaderLabel(line).None? <==> line == ">"
  {
    if line != ">" {
      assert !IsSpace(line[|line| - 1]);
      assert TrimLeft(line[1..]) != [];
    }
  }

  /** A sequence line with the gaps and whitespace (`[-\s]+`) or only the
      whitespace (`[\s]+`) removed. */
  function Clean(line: string, removeGaps: bool): (r: string)
    ensures NoSpace(r)
    ensures removeGaps ==> '-' !in r
  {
    if removeGaps then RemoveGaps(line) else RemoveSpace(line)
  }

  /** What the reader remembers between lines: the current label, the
      sequence read since it, and the records completed so far. */
  datatype State = State(header: string, residues: string, records: seq<SeqRecord>)

  /** One line of the loop body. */
  function Step(st: State, raw: string, index: nat, removeGaps: bool): Result<State, ParseError> {
    var line := Strip(raw);
    if line == [] then Success(st)
    else if line[0] == '>' then
      match HeaderLabel(line)
      case None => Failure(EmptyHeader(index))
      case Some(header) =>
        if st.residues != [] then
          Success(State(header, "", st.records + [NewRecord(st.header, st.residues)]))
        else
          Success(State(header, st.residues, st.records))
    else Success(State(st.header, st.residues + Clean(line, removeGaps), st.records))
  }

  /** The state after the first |lines| lines. */
  function Scan(lines: seq<string>, removeGaps: bool): Result<State, ParseError> {
    Fold(lines, State("", "", []), LineStep(removeGaps))
  }

  function LineStep(removeGaps: bool): (State, string, nat) -> Result<State, ParseError> {
    (st: State, raw: string, k: nat) => Step(st, raw, k, removeGaps)
  }

  /** `parse_fasta_file(file, remove_gaps)`: the completed records and, last,
      the record under construction when the file ends, so a parse that
      succeeds never returns an empty list. */
  function Parse(lines: seq<string>, removeGaps: bool): (r: Result<seq<SeqRecord>, ParseError>)
    ensures r.Success? ==> r.value != []
  {
    match Scan(lines, removeGaps)
    case Failure(e) => Failure(e)
    case Success(st) => Success(st.records + [NewRecord(st.header, st.residues)])
  }

  /** One line fails exactly when it is an empty header, and the error names it. */
  lemma StepFailsIff(st: State, raw: string, k: nat, removeGaps: bool)
    ensures Step(st, raw, k, removeGaps).Failure? <==> IsEmptyHeader(raw)
    ensures Step(st, raw, k, removeGaps).Failure? ==> Step(st, raw, k, removeGaps).error == EmptyHeader(k)
  {
    var line := Strip(raw);
    if line == [] {
      assert Step(st, raw, k, removeGaps) == Success(st);
      assert line != ">";
    } else if line[0] == '>' {
      StripLineIsStripped(raw);
      HeaderLabelMissingIff(line);
    } else {
      assert line != ">";
    }
  }

  method ParseFastaFile(lines: seq<string>, removeGaps: bool) returns (r: Result<seq<SeqRecord>, ParseError>)
    ensures r == Parse(lines, removeGaps)
  {
    var header := "";
    var residues := "";
    var records: seq<SeqRecord> := [];
    var i := 0;
    while i < |lines|
      invariant 0 <= i <= |lines|
      invariant Scan(lines[..i], removeGaps) == Success(State(header, residues, records))
    {
      assert lines[..i + 1][..i] == lines[..i];
      ghost var next := Step(State(header, residues, records), lines[i], i, removeGaps);
      assert Scan(lines[..i + 1], removeGaps) == next;
      var line := Strip(lines[i]);
      if line != [] {
        if line[0] == '>' {
          var found := HeaderLabel(line);
          if found.None? {
            assert next == Failure(EmptyHeader(i));
            FoldFailureStays(lines, i + 1, State("", "", []), LineStep(removeGaps));
            return Failure(EmptyHeader(i));
          }
          if residues != [] {
            records := records + [NewRecord(header, residues)];
            header := found.value;
            residues := "";
          } else {
            header := found.value;
          }
        } else {
          residues := residues + Clean(line, removeGaps);
        }
      }
      assert next == Success(State(header, residues, records));
      i := i + 1;
    }
    assert lines[..i] == lines;
    r := Success(records + [NewRecord(header, residues)]);
  }

  /** A line that makes the parse fail. */
  predicate IsEmptyHeader(raw: string) {
    Strip(raw) == ">"
  }

  /** The cleaned sequence text a line contributes: none for blank and header lines. */
  function LineText(raw: string, removeGaps: bool): (r: string)
    ensures NoSpace(r)
    ensures removeGaps ==> '-' !in r
  {
    var line := Strip(raw);
    if line == [] || line[0] == '>' then [] else Clean(line, removeGaps)
  }

  /** The cleaned text of the sequence lines among `lines`, in order. */
  function SequenceText(lines: seq<string>, removeGaps: bool): string {
    if lines == [] then []
    else SequenceText(lines[..|lines| - 1], removeGaps) + LineText(lines[|lines| - 1], removeGaps)
  }

  /** All residues of a list of records, in order. */
  function Residues(records: seq<SeqRecord>): string {
    if records == [] then [] else Residues(records[..|records| - 1]) + records[|records| - 1].residues
  }

  lemma StripLineIsStripped(raw: string)
    ensures Strip(Strip(raw)) == Strip(raw)
  {
    var s := Strip(raw);
    assert TrimLeft(s) == s;
    if s != [] {
      assert TrimRight(s) == s;
    }
  }

  function LineOf(e: ParseError): nat {
    e.lineIndex
  }

  /** The parse fails exactly when some line is an empty header, and it names
      the first one. */
  lemma ScanFailsIff(lines: seq<string>, removeGaps: bool)
    ensures Scan(lines, removeGaps).Failure? <==>
              exists i :: 0 <= i < |lines| && IsEmptyHeader(lines[i])
    ensures Scan(lines, removeGaps).Failure? ==>
              var k := Scan(lines, removeGaps).error.lineIndex;
              k < |lines| && IsEmptyHeader(lines[k])
              && forall j :: 0 <= j < k ==> !IsEmptyHeader(lines[j])
  {
    forall st: State, raw: string, k: nat
      ensures (LineStep(removeGaps)(st, raw, k).Failure? <==> IsEmptyHeader(raw))
              && (LineStep(removeGaps)(st, raw, k).Failure? ==>
                    LineOf(LineStep(removeGaps)(st, raw, k).error) == k)
    {
      StepFailsIff(st, raw, k, removeGaps);
    }
    FoldFailsIff(lines, State("", "", []), LineStep(removeGaps), IsEmptyHeader, LineOf);
  }

  lemma ParseFailsIff(lines: seq<string>, removeGaps: bool)
    ensures Parse(lines, removeGaps).Failure? <==>
              exists i :: 0 <= i < |lines| && IsEmptyHeader(lines[i])
    ensures Parse(lines, removeGaps).Failure? ==>
              var k := Parse(lines, removeGaps).error.lineIndex;
              k < |lines| && IsEmptyHeader(lines[k])
              && forall j :: 0 <= j < k ==> !IsEmptyHeader(lines[j])
  {
    ScanFailsIff(lines, removeGaps);
  }

  lemma {:induction false} ResiduesAppend(records: seq<SeqRecord>, r: SeqRecord)
    ensures Residues(records + [r]) == Residues(records) + r.residues
  {
    assert (records + [r])[..|records|] == records;
  }

  /** What holds of the reader's state after every line. */
  predicate Invariant(st: State, text: string) {
    NoSpace(st.residues)
    && (forall k :: 0 <= k < |st.records| ==> st.records[k].residues != [])
    && Residues(st.records) + st.residues == text
  }

  lemma NoSpaceAppend(a: string, b: string)
    requires NoSpace(a) && NoSpace(b)
    ensures NoSpace(a + b)
  {
    assert forall i :: 0 <= i < |a| ==> (a + b)[i] == a[i];
    assert forall i :: |a| <= i < |a + b| ==> (a + b)[i] == b[i - |a|];
  }

  /** Closing a pending record that carries the pending sequence, whatever
      header comes next. */
  lemma CloseRecordKeeps(st: State, rec: SeqRecord, header: string, text: string)
    requires Invariant(st, text) && st.residues != [] && rec.residues == st.residues
    ensures Invariant(State(header, "", st.records + [rec]), text)
  {
    var recs := st.records + [rec];
    ResiduesAppend(st.records, rec);
    assert Residues(recs) + "" == Residues(recs);
    assert forall j :: 0 <= j < |st.records| ==> recs[j] == st.records[j];
  }

  /** A header line closes the pending record, if it has a sequence. */
  lemma HeaderKeeps(st: State, raw: string, k: nat, removeGaps: bool, text: string)
    requires Invariant(st, text) && Step(st, raw, k, removeGaps).Success?
    requires Strip(raw) != [] && Strip(raw)[0] == '>'
    ensures Invariant(Step(st, raw, k, removeGaps).value, text)
  {
    var h := HeaderLabel(Strip(raw));
    if st.residues != [] {
      var rec := NewRecord(st.header, st.residues);
      assert Step(st, raw, k, removeGaps) == Success(State(h.value, "", st.records + [rec]));
      StripNoSpace(st.residues);
      CloseRecordKeeps(st, rec, h.value, text);
    } else {
      assert Step(st, raw, k, removeGaps) == Success(State(h.value, st.residues, st.records));
    }
  }

  /** A sequence line extends the pending sequence by its cleaned text. */
  lemma SequenceKeeps(st: State, raw: string, k: nat, removeGaps: bool, text: string)
    requires Invariant(st, text)
    requires Strip(raw) != [] && Strip(raw)[0] != '>'
    ensures Step(st, raw, k, removeGaps).Success?
    ensures Invariant(Step(st, raw, k, removeGaps).value, text + LineText(raw, removeGaps))
  {
    var c := Clean(Strip(raw), removeGaps);
    assert Step(st, raw, k, removeGaps) == Success(State(st.header, st.residues + c, st.records));
    assert LineText(raw, removeGaps) == c;
    NoSpaceAppend(st.residues, c);
    assert Residues(st.records) + (st.residues + c) == (Residues(st.records) + st.residues) + c;
  }

  /** One line keeps the invariant, adding its own sequence text. */
  lemma StepKeeps(st: State, raw: string, k: nat, removeGaps: bool, text: string)
    requires Invariant(st, text) && Step(st, raw, k, removeGaps).Success?
    ensures Invariant(Step(st, raw, k, removeGaps).value, text + LineText(raw, removeGaps))
  {
    var line := Strip(raw);
    if line == [] {
      assert Step(st, raw, k, removeGaps) == Success(st);
      assert LineText(raw, removeGaps) == [];
      assert text + [] == text;
    } else if line[0] == '>' {
      assert LineText(raw, removeGaps) == [];
      assert text + [] == text;
      HeaderKeeps(st, raw, k, removeGaps, text);
    } else {
      SequenceKeeps(st, raw, k, removeGaps, text);
    }
  }

  /** Every completed record has a non-empty sequence, and the records
      together with the pending sequence hold every sequence line, cleaned,
      in file order. */
  lemma {:induction false} ScanInvariant(lines: seq<string>, removeGaps: bool)
    requires Scan(lines, removeGaps).Success?
    ensures Invariant(Scan(lines, removeGaps).value, SequenceText(lines, removeGaps))
  {
    if lines != [] {
      var n := |lines| - 1;
      var prefix := lines[..n];
      var prev := Scan(prefix, removeGaps);
      assert prev.Success?;
      assert Scan(lines, removeGaps) == Step(prev.value, lines[n], n, removeGaps);
      ScanInvariant(prefix, removeGaps);
      StepKeeps(prev.value, lines[n], n, removeGaps, SequenceText(prefix, removeGaps));
    }
  }

  /** A successful parse returns at least one record; all but the last have a
      non-empty sequence; and the sequences, concatenated, are the cleaned
      sequence lines of the file: nothing is lost or reordered. */
  lemma ParseProperties(lines: seq<string>, removeGaps: bool)
    requires Parse(lines, removeGaps).Success?
    ensures var records := Parse(lines, removeGaps).value;
      |records| >= 1
      && (forall k :: 0 <= k < |records| - 1 ==> records[k].residues != [])
      && Residues(records) == SequenceText(lines, removeGaps)
  {
    assert Scan(lines, removeGaps).Success?;
    ScanInvariant(lines, removeGaps);
    var st := Scan(lines, removeGaps).value;
    assert Parse(lines, removeGaps).value == st.records + [NewRecord(st.header, st.residues)];
    StripNoSpace(st.residues);
    ResiduesAppend(st.records, NewRecord(st.header, st.residues));
    var records := st.records + [NewRecord(st.header, st.residues)];
    assert forall j :: 0 <= j < |st.records| ==> records[j] == st.records[j];
  }

  /** The last record is appended unconditionally: an empty file gives one
      record with an empty label and an empty sequence. */
  lemma ParseEmptyFile(removeGaps: bool)
    ensures Parse([], removeGaps) == Success([SeqRecord("", "")])
  {
    assert Scan([], removeGaps) == Success(State("", "", []));
    assert Strip("") == "";
    assert NewRecord("", "") == SeqRecord("", "");
    assert Parse([], removeGaps) == Success([] + [NewRecord("", "")]);
    assert [] + [NewRecord("", "")] == [SeqRecord("", "")];
  }

  /** A header whose record has no sequence yet does not close it: the record
      keeps its place and takes the new label. */
  lemma HeaderReplacesEmptyRecord(st: State, raw: string, k: nat, removeGaps: bool)
    requires st.residues == [] && Strip(raw) != [] && Strip(raw)[0] == '>'
    requires Strip(raw) != ">"
    ensures Step(st, raw, k, removeGaps).Success?
    ensures Step(st, raw, k, removeGaps).value.records == st.records
    ensures Step(st, raw, k, removeGaps).value.residues == []
    ensures HeaderLabel(Strip(raw)).Some?
    ensures Step(st, raw, k, removeGaps).value.header == HeaderLabel(Strip(raw)).value
    ensures Step(st, raw, k, removeGaps).value.header != []
  {
    StripLineIsStripped(raw);
    HeaderLabelMissingIff(Strip(raw));
  }

  // ---------------------------------------------------------------------------
  // The records as the lines show them

  predicate IsHeaderLine(raw: string) {
    var line := Strip(raw);
    line != [] && line[0] == '>'
  }

  /** The number of header lines. */
  function HeaderCount(lines: seq<string>): nat {
    if lines == [] then 0
    else HeaderCount(lines[..|lines| - 1]) + (if IsHeaderLine(lines[|lines| - 1]) then 1 else 0)
  }

  /** The indexes of the header lines are counted by `HeaderCount`. */
  lemma {:induction false} HeadersCount(lines: seq<string>)
    ensures |Headers(lines, IsHeaderLine)| == HeaderCount(lines)
  {
    if lines != [] {
      HeadersCount(lines[..|lines| - 1]);
    }
  }

  /** The label of a header line; the readers stop at a header without one. */
  function LabelOf(raw: string): string {
    var line := Strip(raw);
    if line != [] && line[0] == '>' then
      match HeaderLabel(line)
      case Some(h) => h
      case None => ""
    else ""
  }

  /** The label a section's record carries: its header's, or "" for the lines
      before the first header. */
  function SectionLabel(sec: Section): string {
    match sec.opener
    case None => ""
    case Some(raw) => LabelOf(raw)
  }

  /** The record a section makes: its label and the cleaned text of its lines. */
  function SectionRecord(sec: Section, removeGaps: bool): SeqRecord {
    NewRecord(SectionLabel(sec), SequenceText(sec.body, removeGaps))
  }

  /** The records of the sections that have a sequence, in order. */
  function WithSequence(secs: seq<Section>, removeGaps: bool): seq<SeqRecord> {
    if secs == [] then []
    else
      var sec := secs[|secs| - 1];
      WithSequence(secs[..|secs| - 1], removeGaps)
      + (if SequenceText(sec.body, removeGaps) != [] then [SectionRecord(sec, removeGaps)] else [])
  }

  /** What the parse returns, stated on the sections of the file: one record
      per section with a sequence, and last the record of the last section,
      with or without one. A section with no sequence that another follows
      leaves no record. */
  function SectionRecords(lines: seq<string>, removeGaps: bool): seq<SeqRecord> {
    var secs := Sections(lines, IsHeaderLine);
    WithSequence(secs[..|secs| - 1], removeGaps) + [SectionRecord(secs[|secs| - 1], removeGaps)]
  }

  /** The reader's state as the sections of the lines read so far predict it. */
  predicate Tracks(st: State, secs: seq<Section>, removeGaps: bool)
    requires secs != []
  {
    var last := secs[|secs| - 1];
    st == State(SectionLabel(last), SequenceText(last.body, removeGaps),
                WithSequence(secs[..|secs| - 1], removeGaps))
  }

  /** A line that is not a header appends its cleaned text. */
  lemma LineStepAppends(st: State, raw: string, k: nat, removeGaps: bool)
    requires !IsHeaderLine(raw)
    ensures Step(st, raw, k, removeGaps) == Success(st.(residues := st.residues + LineText(raw, removeGaps)))
  {
    if Strip(raw) == [] {
      assert st.residues + [] == st.residues;
    }
  }

  /** A header line takes its label and closes the pending record when it
      has a sequence. */
  lemma HeaderStepOpens(st: State, raw: string, k: nat, removeGaps: bool)
    requires IsHeaderLine(raw) && Step(st, raw, k, removeGaps).Success?
    ensures Step(st, raw, k, removeGaps).value ==
              State(LabelOf(raw), "",
                    st.records + (if st.residues != [] then [NewRecord(st.header, st.residues)] else []))
  {
  }

  lemma SequenceTextSnoc(body: seq<string>, raw: string, removeGaps: bool)
    ensures SequenceText(body + [raw], removeGaps) == SequenceText(body, removeGaps) + LineText(raw, removeGaps)
  {
    assert (body + [raw])[..|body|] == body;
  }

  /** A header line opens a new section. */
  lemma TracksOpen(st: State, secs: seq<Section>, raw: string, next: State, removeGaps: bool)
    requires secs != [] && Tracks(st, secs, removeGaps)
    requires next == State(LabelOf(raw), "",
                           st.records + (if st.residues != [] then [NewRecord(st.header, st.residues)] else []))
    ensures Tracks(next, secs + [Section(Some(raw), [])], removeGaps)
  {
    assert (secs + [Section(Some(raw), [])])[..|secs|] == secs;
  }

  /** Any other line extends the last section. */
  lemma TracksAppend(st: State, secs: seq<Section>, raw: string, next: State, removeGaps: bool)
    requires secs != [] && Tracks(st, secs, removeGaps)
    requires next == st.(residues := st.residues + LineText(raw, removeGaps))
    ensures var last := secs[|secs| - 1];
      Tracks(next, secs[..|secs| - 1] + [last.(body := last.body + [raw])], removeGaps)
  {
    var last := secs[|secs| - 1];
    SequenceTextSnoc(last.body, raw, removeGaps);
    assert (secs[..|secs| - 1] + [last.(body := last.body + [raw])])[..|secs| - 1] == secs[..|secs| - 1];
  }

  lemma {:induction false} ScanTracks(lines: seq<string>, removeGaps: bool)
    requires Scan(lines, removeGaps).Success?
    ensures Tracks(Scan(lines, removeGaps).value, Sections(lines, IsHeaderLine), removeGaps)
  {
    if lines == [] {
      assert Headers(lines, IsHeaderLine) == [];
      assert Sections(lines, IsHeaderLine) == [Section(None, [])];
    } else {
      var n := |lines| - 1;
      var prev := Scan(lines[..n], removeGaps);
      assert prev.Success?;
      assert Scan(lines, removeGaps) == Step(prev.value, lines[n], n, removeGaps);
      var next := Scan(lines, removeGaps).value;
      ScanTracks(lines[..n], removeGaps);
      SectionsSnoc(lines, IsHeaderLine);
      if IsHeaderLine(lines[n]) {
        HeaderStepOpens(prev.value, lines[n], n, removeGaps);
        TracksOpen(prev.value, Sections(lines[..n], IsHeaderLine), lines[n], next, removeGaps);
      } else {
        LineStepAppends(prev.value, lines[n], n, removeGaps);
        TracksAppend(prev.value, Sections(lines[..n], IsHeaderLine), lines[n], next, removeGaps);
      }
    }
  }


  /** The cleaned text holds no whitespace and, with gaps removed, no '-':
      `textwrap` finds no place to break it but the width. */
  lemma {:induction false} SequenceTextUnbreakable(lines: seq<string>, removeGaps: bool)
    ensures NoSpace(SequenceText(lines, removeGaps))
    ensures removeGaps ==> Unbreakable(SequenceText(lines, removeGaps))
  {
    if lines != [] {
      var n := |lines| - 1;
      SequenceTextUnbreakable(lines[..n], removeGaps);
      NoSpaceAppend(SequenceText(lines[..n], removeGaps), LineText(lines[n], removeGaps));
    }
  }

  /** The parse builds exactly the records of the file's sections: the lines
      before the first header make a record with an empty label, each header
      labels the record of the lines up to the next header, and a section
      without a sequence is dropped unless it is the last. */
  lemma ParseIsSections(lines: seq<string>, removeGaps: bool)
    requires Parse(lines, removeGaps).Success?
    ensures Parse(lines, removeGaps).value == SectionRecords(lines, removeGaps)
  {
    ScanTracks(lines, removeGaps);
  }

  /** The first record of a successful parse with a sequence before the first
      header (or with no header at all) has an empty label and holds the
      cleaned text of the lines before the first header. */
  lemma ParseLeadingRecord(lines: seq<string>, removeGaps: bool)
    requires Parse(lines, removeGaps).Success?
    requires var hs := Headers(lines, IsHeaderLine);
      hs == [] || SequenceText(lines[..hs[0]], removeGaps) != []
    ensures var hs := Headers(lines, IsHeaderLine);
      Parse(lines, removeGaps).value[0] ==
        NewRecord("", SequenceText(lines[..if hs == [] then |lines| else hs[0]], removeGaps))
  {
    var secs := Sections(lines, IsHeaderLine);
    ParseIsSections(lines, removeGaps);
    FirstSection(lines, IsHeaderLine);
    var records := SectionRecords(lines, removeGaps);
    var closed := WithSequence(secs[..|secs| - 1], removeGaps);
    assert records == closed + [SectionRecord(secs[|secs| - 1], removeGaps)];
    if |secs| > 1 {
      WithSequenceFirst(secs[..|secs| - 1], removeGaps);
      assert records[0] == closed[0];
    }
  }

  /** The first section with a sequence gives the first record. */
  lemma {:induction false} WithSequenceFirst(secs: seq<Section>, removeGaps: bool)
    requires secs != [] && SequenceText(secs[0].body, removeGaps) != []
    ensures WithSequence(secs, removeGaps) != []
    ensures WithSequence(secs, removeGaps)[0] == SectionRecord(secs[0], removeGaps)
  {
    var n := |secs| - 1;
    if n > 0 {
      WithSequenceFirst(secs[..n], removeGaps);
    }
  }
}
