/// clean_fasta.py: `CleanFasta.stream_fasta`, a generator of sequence records
/// read from FASTA lines, and the per-record filter of `clean_mol_seqs`, which
/// counts every record under exactly one reason and keeps the records whose
/// name, characters, length and composition pass.
module CleanFasta {
  import opened Results
  import opened Text
  import opened Molseq
  import opened FastaParser
  import opened Folds
  import opened FileSections

  // ---------------------------------------------------------------------------
  // stream_fasta

  /** The generator's local state: the current identifier (`None` before the
      first header), the sequence read since it, and the records yielded. */
  datatype StreamState = StreamState(id: Option<string>, residues: string, records: seq<SeqRecord>)

  /** The generator stops at a header line with no label (an `AttributeError`)
      after yielding `yielded`. */
  datatype StreamError = StreamError(lineIndex: nat, yielded: seq<SeqRecord>)

  function ErrorLine(e: StreamError): nat {
    e.lineIndex
  }

  /** The records yielded once the pending record, if there is one, is yielded too. */
  function Close(st: StreamState): seq<SeqRecord> {
    if st.id.Some? then st.records + [NewRecord(st.id.value, st.residues)] else st.records
  }

  /** One line of the generator. A header yields the pending record before its
      own label is looked for, so a failing header still yields it. */
  function StreamStep(st: StreamState, raw: string, k: nat, removeGaps: bool): Result<StreamState, StreamError> {
    var line := Strip(raw);
    if line == [] then Success(st)
    else if line[0] == '>' then
      match HeaderLabel(line)
      case None => Failure(StreamError(k, Close(st)))
      case Some(id) => Success(StreamState(Some(id), "", Close(st)))
    else Success(st.(residues := st.residues + Clean(line, removeGaps)))
  }

  function StreamLineStep(removeGaps: bool): (StreamState, string, nat) -> Result<StreamState, StreamError> {
    (st: StreamState, raw: string, k: nat) => StreamStep(st, raw, k, removeGaps)
  }

  function StreamScan(lines: seq<string>, removeGaps: bool): Result<StreamState, StreamError> {
    Fold(lines, StreamState(None, "", []), StreamLineStep(removeGaps))
  }

  /** Everything `stream_fasta` yields over the whole input; an empty input
      yields nothing. What the records are is stated by `StreamIsSections`,
      `StreamRecord` and `StreamFailsIff` below. */
  function Stream(lines: seq<string>, removeGaps: bool): (r: Result<seq<SeqRecord>, StreamError>)
    ensures lines == [] ==> r == Success([])
  {
    match StreamScan(lines, removeGaps)
    case Failure(e) => Failure(e)
    case Success(st) => Success(Close(st))
  }

  /** The body of the generator's loop for one line. */
  method ReadStreamLine(st: StreamState, raw: string, k: nat, removeGaps: bool)
    returns (r: Result<StreamState, StreamError>)
    ensures r == StreamStep(st, raw, k, removeGaps)
  {
    var id, residues, records := st.id, st.residues, st.records;
    var line := Strip(raw);
    if line != [] {
      if line[0] == '>' {
        if id.Some? {
          records := records + [NewRecord(id.value, residues)];
        }
        var found := HeaderLabel(line);
        if found.None? {
          return Failure(StreamError(k, records));
        }
        id := Some(found.value);
        residues := [];
      } else {
        residues := residues + Clean(line, removeGaps);
      }
    }
    r := Success(StreamState(id, residues, records));
  }

  lemma StreamScanStep(lines: seq<string>, i: nat, removeGaps: bool, st: StreamState)
    requires i < |lines| && StreamScan(lines[..i], removeGaps) == Success(st)
    ensures StreamScan(lines[..i + 1], removeGaps) == StreamStep(st, lines[i], i, removeGaps)
  {
    FoldStep(lines, i, StreamState(None, "", []), StreamLineStep(removeGaps), st);
  }

  method StreamFasta(lines: seq<string>, removeGaps: bool) returns (r: Result<seq<SeqRecord>, StreamError>)
    ensures r == Stream(lines, removeGaps)
  {
    var st := StreamState(None, "", []);
    var i := 0;
    assert lines[..0] == [];
    while i < |lines|
      invariant 0 <= i <= |lines|
      invariant StreamScan(lines[..i], removeGaps) == Success(st)
    {
      var next := ReadStreamLine(st, lines[i], i, removeGaps);
      StreamScanStep(lines, i, removeGaps, st);
      if next.Failure? {
        FoldFailureStays(lines, i + 1, StreamState(None, "", []), StreamLineStep(removeGaps));
        return Failure(next.error);
      }
      st := next.value;
      i := i + 1;
    }
    assert lines[..i] == lines;
    r := Success(Close(st));
  }

  /** One line stops the generator exactly when it is an empty header; what it
      yielded by then includes the record the header closed. */
  lemma StreamStepFailsIff(st: StreamState, raw: string, k: nat, removeGaps: bool)
    ensures StreamStep(st, raw, k, removeGaps).Failure? <==> IsEmptyHeader(raw)
    ensures StreamStep(st, raw, k, removeGaps).Failure? ==>
              StreamStep(st, raw, k, removeGaps).error == StreamError(k, Close(st))
  {
    var line := Strip(raw);
    if line == [] {
      assert StreamStep(st, raw, k, removeGaps) == Success(st);
      assert line != ">";
    } else if line[0] == '>' {
      StripLineIsStripped(raw);
      HeaderLabelMissingIff(line);
    } else {
      assert line != ">";
    }
  }

  /** The generator stops exactly when some line is an empty header, at the
      first one. */
  lemma StreamFailsIff(lines: seq<string>, removeGaps: bool)
    ensures Stream(lines, removeGaps).Failure? <==>
              exists i :: 0 <= i < |lines| && IsEmptyHeader(lines[i])
    ensures Stream(lines, removeGaps).Failure? ==>
              var k := Stream(lines, removeGaps).error.lineIndex;
              k < |lines| && IsEmptyHeader(lines[k])
              && forall j :: 0 <= j < k ==> !IsEmptyHeader(lines[j])
  {
    forall st: StreamState, raw: string, k: nat
      ensures (StreamLineStep(removeGaps)(st, raw, k).Failure? <==> IsEmptyHeader(raw))
              && (StreamLineStep(removeGaps)(st, raw, k).Failure? ==>
                    ErrorLine(StreamLineStep(removeGaps)(st, raw, k).error) == k)
    {
      StreamStepFailsIff(st, raw, k, removeGaps);
    }
    FoldFailsIff(lines, StreamState(None, "", []), StreamLineStep(removeGaps), IsEmptyHeader, ErrorLine);
  }

  /** The cleaned text of the sequence lines that follow the first header. */
  function TextAfterHeader(lines: seq<string>): string {
    if lines == [] then []
    else
      var prefix := lines[..|lines| - 1];
      TextAfterHeader(prefix) + (if HeaderCount(prefix) > 0 then LineText(lines[|lines| - 1], true) else [])
  }

  lemma StripKeepsNonEmpty(s: string)
    requires s != [] && !IsSpace(s[0])
    ensures Strip(s) != []
  {
    assert TrimLeft(s) == s;
  }

  /** What holds of the generator's state after every line, given the number
      of headers so far, the sequence text before the first header and the
      sequence text after it. */
  predicate StreamInvariant(st: StreamState, headers: nat, before: string, after: string) {
    (st.id.Some? <==> headers > 0)
    && |st.records| + (if st.id.Some? then 1 else 0) == headers
    && (st.id.Some? ==> st.id.value != [] && !IsSpace(st.id.value[0]))
    && (forall k :: 0 <= k < |st.records| ==>
          st.records[k].id != [] && Strip(st.records[k].id) == st.records[k].id)
    && NoSpace(st.residues)
    && (st.id.None? ==> st.residues == before)
    && (st.id.Some? ==> Residues(st.records) + st.residues == after)
  }

  lemma CloseKeeps(st: StreamState, headers: nat, before: string, after: string)
    requires StreamInvariant(st, headers, before, after)
    ensures |Close(st)| == headers
    ensures forall k :: 0 <= k < |Close(st)| ==>
              Close(st)[k].id != [] && Strip(Close(st)[k].id) == Close(st)[k].id
    ensures headers > 0 ==> Residues(Close(st)) == after
  {
    if st.id.Some? {
      assert Close(st) == st.records + [NewRecord(st.id.value, st.residues)];
      ClosedRecordsKeep(st.records, st.id.value, st.residues);
    } else {
      assert Close(st) == st.records;
    }
  }

  /** Closing a record onto stripped, labelled records keeps them so and adds
      its residues at the end. */
  lemma ClosedRecordsKeep(records: seq<SeqRecord>, id: string, residues: string)
    requires id != [] && !IsSpace(id[0])
    requires NoSpace(residues)
    requires forall k :: 0 <= k < |records| ==> records[k].id != [] && Strip(records[k].id) == records[k].id
    ensures var c := records + [NewRecord(id, residues)];
      (forall k :: 0 <= k < |c| ==> c[k].id != [] && Strip(c[k].id) == c[k].id)
      && Residues(c) == Residues(records) + residues
  {
    var rec := NewRecord(id, residues);
    var c := records + [rec];
    assert rec.id == Strip(id) && rec.residues == Strip(residues);
    StripKeepsNonEmpty(id);
    StripLineIsStripped(id);
    assert rec.id != [] && Strip(rec.id) == rec.id;
    StripNoSpace(residues);
    assert rec.residues == residues;
    ResiduesAppend(records, rec);
    forall k | 0 <= k < |c|
      ensures c[k].id != [] && Strip(c[k].id) == c[k].id
    {
      if k < |records| {
        assert c[k] == records[k];
      } else {
        assert c[k] == rec;
      }
    }
  }

  /** A header yields the pending record and opens a new one. */
  lemma OpenKeeps(st: StreamState, id: string, headers: nat, before: string, after: string)
    requires StreamInvariant(st, headers, before, after)
    requires id != [] && !IsSpace(id[0])
    ensures StreamInvariant(StreamState(Some(id), "", Close(st)), headers + 1, before,
                            if headers > 0 then after else [])
  {
    var c := Close(st);
    CloseKeeps(st, headers, before, after);
    if headers > 0 {
      assert Residues(c) + "" == Residues(c);
    } else {
      assert c == [];
      assert Residues(c) + "" == [];
    }
    OpenedState(c, id, headers + 1, before, if headers > 0 then after else []);
  }

  /** A freshly opened record on top of records that meet the invariant. */
  lemma OpenedState(c: seq<SeqRecord>, id: string, headers: nat, before: string, after: string)
    requires |c| + 1 == headers
    requires id != [] && !IsSpace(id[0])
    requires forall k :: 0 <= k < |c| ==> c[k].id != [] && Strip(c[k].id) == c[k].id
    requires Residues(c) + "" == after
    ensures StreamInvariant(StreamState(Some(id), "", c), headers, before, after)
  {
  }

  /** A sequence line extends the pending sequence. */
  lemma AppendKeeps(st: StreamState, c: string, headers: nat, before: string, after: string)
    requires StreamInvariant(st, headers, before, after) && NoSpace(c)
    ensures StreamInvariant(st.(residues := st.residues + c), headers, before + c,
                            if headers > 0 then after + c else after)
  {
    NoSpaceAppend(st.residues, c);
    assert Residues(st.records) + (st.residues + c) == (Residues(st.records) + st.residues) + c;
  }

  lemma StreamStepKeeps(st: StreamState, raw: string, k: nat, removeGaps: bool,
                        headers: nat, before: string, after: string)
    requires StreamInvariant(st, headers, before, after)
    requires StreamStep(st, raw, k, removeGaps).Success?
    ensures StreamInvariant(StreamStep(st, raw, k, removeGaps).value,
                            headers + (if IsHeaderLine(raw) then 1 else 0),
                            before + LineText(raw, removeGaps),
                            if headers > 0 then after + LineText(raw, removeGaps)
                            else if IsHeaderLine(raw) then [] else after)
  {
    var next := StreamStep(st, raw, k, removeGaps).value;
    var isHeader := IsHeaderLine(raw);
    var text := LineText(raw, removeGaps);
    StepKinds(st, raw, k, removeGaps);
    if Strip(raw) == [] {
      BlankKeeps(st, headers, before, after, next, isHeader, text);
    } else if isHeader {
      HeaderKeeps(st, headers, before, after, next, isHeader, text, HeaderLabel(Strip(raw)).value);
    } else {
      SequenceKeeps(st, headers, before, after, next, isHeader, text);
    }
  }

  /** What one line does to the generator's state, by the kind of line. */
  lemma StepKinds(st: StreamState, raw: string, k: nat, removeGaps: bool)
    requires StreamStep(st, raw, k, removeGaps).Success?
    ensures var next := StreamStep(st, raw, k, removeGaps).value;
      (Strip(raw) == [] ==> next == st && !IsHeaderLine(raw) && LineText(raw, removeGaps) == [])
      && (IsHeaderLine(raw) ==>
            LineText(raw, removeGaps) == [] && HeaderLabel(Strip(raw)).Some?
            && next == StreamState(HeaderLabel(Strip(raw)), "", Close(st)))
      && (Strip(raw) != [] && !IsHeaderLine(raw) ==>
            next == st.(residues := st.residues + LineText(raw, removeGaps)))
  {
  }

  /** A blank line changes nothing. */
  lemma BlankKeeps(st: StreamState, headers: nat, before: string, after: string,
                   next: StreamState, isHeader: bool, text: string)
    requires StreamInvariant(st, headers, before, after)
    requires next == st && !isHeader && text == []
    ensures StreamInvariant(next, headers + (if isHeader then 1 else 0), before + text,
                            if headers > 0 then after + text else if isHeader then [] else after)
  {
    assert before + text == before && after + text == after;
  }

  /** A header yields the pending record and opens one under its label. */
  lemma HeaderKeeps(st: StreamState, headers: nat, before: string, after: string,
                    next: StreamState, isHeader: bool, text: string, id: string)
    requires StreamInvariant(st, headers, before, after)
    requires isHeader && text == [] && id != [] && !IsSpace(id[0])
    requires next == StreamState(Some(id), "", Close(st))
    ensures StreamInvariant(next, headers + (if isHeader then 1 else 0), before + text,
                            if headers > 0 then after + text else if isHeader then [] else after)
  {
    assert before + text == before && after + text == after;
    OpenKeeps(st, id, headers, before, after);
  }

  /** A sequence line extends the pending sequence by its cleaned text. */
  lemma SequenceKeeps(st: StreamState, headers: nat, before: string, after: string,
                      next: StreamState, isHeader: bool, text: string)
    requires StreamInvariant(st, headers, before, after)
    requires !isHeader && NoSpace(text) && next == st.(residues := st.residues + text)
    ensures StreamInvariant(next, headers + (if isHeader then 1 else 0), before + text,
                            if headers > 0 then after + text else if isHeader then [] else after)
  {
    AppendKeeps(st, text, headers, before, after);
  }

  lemma {:induction false} StreamScanInvariant(lines: seq<string>)
    requires StreamScan(lines, true).Success?
    ensures StreamInvariant(StreamScan(lines, true).value, HeaderCount(lines),
                            SequenceText(lines, true), TextAfterHeader(lines))
  {
    if lines != [] {
      var n := |lines| - 1;
      var prefix := lines[..n];
      var prev := StreamScan(prefix, true);
      assert prev.Success?;
      assert StreamScan(lines, true) == StreamStep(prev.value, lines[n], n, true);
      StreamScanInvariant(prefix);
      StreamStepKeeps(prev.value, lines[n], n, true, HeaderCount(prefix),
                      SequenceText(prefix, true), TextAfterHeader(prefix));
      if HeaderCount(prefix) == 0 && IsHeaderLine(lines[n]) {
        assert TextAfterHeader(lines) == TextAfterHeader(prefix);
        assert TextAfterHeader(prefix) == [] by { NoTextBeforeHeader(prefix); }
      }
    } else {
      assert StreamScan(lines, true) == Success(StreamState(None, "", []));
    }
  }

  lemma {:induction false} NoTextBeforeHeader(lines: seq<string>)
    requires HeaderCount(lines) == 0
    ensures TextAfterHeader(lines) == []
  {
    if lines != [] {
      NoTextBeforeHeader(lines[..|lines| - 1]);
    }
  }

  /** What the cleaning run reads: one record per header line, in order, each
      with a non-empty identifier; the sequences, concatenated, are exactly the
      cleaned sequence lines after the first header, so lines before it are
      discarded and a header with no sequence lines gives an empty sequence. */
  lemma StreamProperties(lines: seq<string>)
    requires Stream(lines, true).Success?
    ensures |Stream(lines, true).value| == HeaderCount(lines)
    ensures forall k :: 0 <= k < |Stream(lines, true).value| ==>
              Stream(lines, true).value[k].id != [] && Strip(Stream(lines, true).value[k].id) != []
    ensures HeaderCount(lines) > 0 ==> Residues(Stream(lines, true).value) == TextAfterHeader(lines)
  {
    var st := StreamScan(lines, true).value;
    assert Stream(lines, true) == Success(Close(st));
    StreamScanInvariant(lines);
    CloseKeeps(st, HeaderCount(lines), SequenceText(lines, true), TextAfterHeader(lines));
  }
  /** One record per section, in order. */
  function RecordsOf(secs: seq<Section>, removeGaps: bool): seq<SeqRecord> {
    seq(|secs|, i requires 0 <= i < |secs| => SectionRecord(secs[i], removeGaps))
  }

  lemma RecordsOfSnoc(secs: seq<Section>, sec: Section, removeGaps: bool)
    ensures RecordsOf(secs + [sec], removeGaps) == RecordsOf(secs, removeGaps) + [SectionRecord(sec, removeGaps)]
  {
  }

  /** The generator's state as the sections of the lines read so far predict
      it: the pending identifier is the last header's label, the pending
      sequence its section's text, and one record was yielded per earlier
      header. */
  predicate StreamTracks(st: StreamState, secs: seq<Section>, removeGaps: bool)
    requires secs != []
  {
    var m := |secs| - 1;
    st.id == (if m == 0 then None else Some(SectionLabel(secs[m])))
    && st.residues == SequenceText(secs[m].body, removeGaps)
    && st.records == (if m == 0 then [] else RecordsOf(secs[1..m], removeGaps))
  }

  /** Closing yields the record of every section after the first. */
  lemma StreamTracksClose(st: StreamState, secs: seq<Section>, removeGaps: bool)
    requires secs != [] && StreamTracks(st, secs, removeGaps)
    ensures Close(st) == RecordsOf(secs[1..], removeGaps)
  {
    var m := |secs| - 1;
    if m > 0 {
      var prefix, last := secs[1..m], secs[m];
      assert st.id == Some(SectionLabel(last));
      assert st.residues == SequenceText(last.body, removeGaps);
      assert st.records == RecordsOf(prefix, removeGaps);
      assert Close(st) == st.records + [SectionRecord(last, removeGaps)];
      RecordsOfSnoc(prefix, last, removeGaps);
      assert prefix + [last] == secs[1..];
    } else {
      assert st.id.None? && st.records == [];
      assert |RecordsOf(secs[1..], removeGaps)| == 0;
    }
  }

  /** A header line that has a label opens a new section. */
  lemma StreamTracksOpen(st: StreamState, secs: seq<Section>, raw: string, next: StreamState, removeGaps: bool)
    requires secs != [] && StreamTracks(st, secs, removeGaps)
    requires next == StreamState(Some(LabelOf(raw)), "", Close(st))
    ensures StreamTracks(next, secs + [Section(Some(raw), [])], removeGaps)
  {
    var secs' := secs + [Section(Some(raw), [])];
    StreamTracksClose(st, secs, removeGaps);
    assert secs'[1..|secs|] == secs[1..];
  }

  /** Any other line extends the last section. */
  lemma StreamTracksAppend(st: StreamState, secs: seq<Section>, raw: string, next: StreamState, removeGaps: bool)
    requires secs != [] && StreamTracks(st, secs, removeGaps)
    requires next == st.(residues := st.residues + LineText(raw, removeGaps))
    ensures var last := secs[|secs| - 1];
      StreamTracks(next, secs[..|secs| - 1] + [last.(body := last.body + [raw])], removeGaps)
  {
    var m := |secs| - 1;
    var last := secs[m];
    var secs' := secs[..m] + [last.(body := last.body + [raw])];
    SequenceTextSnoc(last.body, raw, removeGaps);
    if m > 0 {
      assert secs'[1..m] == secs[1..m];
    }
  }

  /** A line that is not a header appends its cleaned text. */
  lemma StreamLineAppends(st: StreamState, raw: string, k: nat, removeGaps: bool)
    requires !IsHeaderLine(raw)
    ensures StreamStep(st, raw, k, removeGaps) == Success(st.(residues := st.residues + LineText(raw, removeGaps)))
  {
    if Strip(raw) == [] {
      assert st.residues + [] == st.residues;
    }
  }

  /** A header line that does not stop the generator yields the pending
      record and opens one under its label. */
  lemma StreamHeaderOpens(st: StreamState, raw: string, k: nat, removeGaps: bool)
    requires IsHeaderLine(raw) && StreamStep(st, raw, k, removeGaps).Success?
    ensures StreamStep(st, raw, k, removeGaps).value == StreamState(Some(LabelOf(raw)), "", Close(st))
  {
  }

  /** One line that does not stop the generator keeps the state on track. */
  lemma StreamTracksSnoc(st: StreamState, next: StreamState, prevSecs: seq<Section>, secs: seq<Section>,
                         raw: string, k: nat, removeGaps: bool)
    requires prevSecs != [] && StreamTracks(st, prevSecs, removeGaps)
    requires StreamStep(st, raw, k, removeGaps) == Success(next)
    requires var last := prevSecs[|prevSecs| - 1];
      secs == if IsHeaderLine(raw) then prevSecs + [Section(Some(raw), [])]
              else prevSecs[..|prevSecs| - 1] + [last.(body := last.body + [raw])]
    ensures secs != [] && StreamTracks(next, secs, removeGaps)
  {
    if IsHeaderLine(raw) {
      StreamHeaderOpens(st, raw, k, removeGaps);
      StreamTracksOpen(st, prevSecs, raw, next, removeGaps);
    } else {
      StreamLineAppends(st, raw, k, removeGaps);
      StreamTracksAppend(st, prevSecs, raw, next, removeGaps);
    }
  }

  lemma StreamTracksStart(removeGaps: bool)
    ensures StreamTracks(StreamState(None, "", []), Sections([], IsHeaderLine), removeGaps)
  {
    assert Headers([], IsHeaderLine) == [];
    assert Sections([], IsHeaderLine) == [Section(None, [])];
  }

  lemma {:induction false} StreamScanTracks(lines: seq<string>, removeGaps: bool)
    requires StreamScan(lines, removeGaps).Success?
    ensures StreamTracks(StreamScan(lines, removeGaps).value, Sections(lines, IsHeaderLine), removeGaps)
  {
    if lines == [] {
      assert StreamScan(lines, removeGaps) == Success(StreamState(None, "", []));
      StreamTracksStart(removeGaps);
    } else {
      var n := |lines| - 1;
      var prev := StreamScan(lines[..n], removeGaps);
      assert prev.Success?;
      StreamScanStep(lines, n, removeGaps, prev.value);
      assert lines[..n + 1] == lines;
      StreamScanTracks(lines[..n], removeGaps);
      SectionsSnoc(lines, IsHeaderLine);
      StreamTracksSnoc(prev.value, StreamScan(lines, removeGaps).value, Sections(lines[..n], IsHeaderLine),
                       Sections(lines, IsHeaderLine), lines[n], n, removeGaps);
    }
  }


  /** The generator yields exactly one record per header, in order: the
      header's label and the cleaned text of the lines up to the next header;
      the lines before the first header are dropped. */
  lemma StreamIsSections(lines: seq<string>, removeGaps: bool)
    requires Stream(lines, removeGaps).Success?
    ensures Stream(lines, removeGaps).value == RecordsOf(Sections(lines, IsHeaderLine)[1..], removeGaps)
  {
    StreamScanTracks(lines, removeGaps);
    StreamTracksClose(StreamScan(lines, removeGaps).value, Sections(lines, IsHeaderLine), removeGaps);
  }

  /** Record `k` carries the label of header line `k` and the cleaned text of
      the lines between header `k` and header `k + 1` (or the end); a header
      with no sequence lines gives an empty sequence. */
  lemma StreamRecord(lines: seq<string>, removeGaps: bool, k: nat)
    requires Stream(lines, removeGaps).Success? && k < |Stream(lines, removeGaps).value|
    ensures var hs := Headers(lines, IsHeaderLine);
      k < |hs|
      && var end := if k + 1 < |hs| then hs[k + 1] else |lines|;
      hs[k] < end
      && Stream(lines, removeGaps).value[k] ==
           SeqRecord(Strip(LabelOf(lines[hs[k]])), SequenceText(lines[hs[k] + 1..end], removeGaps))
  {
    var hs := Headers(lines, IsHeaderLine);
    var secs := Sections(lines, IsHeaderLine);
    var recs := Stream(lines, removeGaps).value;
    StreamIsSections(lines, removeGaps);
    assert |secs| == |hs| + 1;
    assert recs[k] == SectionRecord(secs[k + 1], removeGaps);
    SectionAfterHeader(lines, IsHeaderLine, k);
    var end := if k + 1 < |hs| then hs[k + 1] else |lines|;
    HeaderSectionRecord(lines[hs[k]], lines[hs[k] + 1..end], removeGaps);
  }

  /** A section opened by a header makes the record of the header's label and
      the cleaned text of its lines, which stripping leaves as it is. */
  lemma HeaderSectionRecord(raw: string, body: seq<string>, removeGaps: bool)
    ensures SectionRecord(Section(Some(raw), body), removeGaps) ==
            SeqRecord(Strip(LabelOf(raw)), SequenceText(body, removeGaps))
  {
    SequenceTextUnbreakable(body, removeGaps);
    StripNoSpace(SequenceText(body, removeGaps));
  }

  /** With gaps removed, every yielded sequence can be wrapped by
      `to_fasta_wrapped`: it holds neither whitespace nor '-'. */
  lemma StreamUnbreakable(lines: seq<string>, k: nat)
    requires Stream(lines, true).Success? && k < |Stream(lines, true).value|
    ensures Unbreakable(Stream(lines, true).value[k].residues)
  {
    var secs := Sections(lines, IsHeaderLine);
    var recs := Stream(lines, true).value;
    StreamIsSections(lines, true);
    assert recs[k] == SectionRecord(secs[k + 1], true);
    var text := SequenceText(secs[k + 1].body, true);
    SequenceTextUnbreakable(secs[k + 1].body, true);
    StripNoSpace(text);
  }


  // ---------------------------------------------------------------------------
  // clean_mol_seqs

  /** The command-line settings: minimal length, minimal valid-character
      ratio, amino acids (else nucleic acids), unique names, maximal length. */
  datatype Settings = Settings(minLength: int, minRatio: real, aa: bool, uniqueIds: bool, maxLength: int)

  /** The reason a record is counted under. */
  datatype Verdict =
    | NoName
    | Numbers
    | TooShort
    | TooLong
    | IrregularChars
    | IdenticalId
    | Passed(name: string)

  datatype CleanError =
    | OutputExists                  // the output file exists: exit before reading
    | MalformedHeader(lineIndex: nat) // the generator failed on a header line
    | DivisionByZero                // an empty sequence reached the ratio

  /** The valid characters: all but the irregular ones for amino acids, the
      regular ones for nucleic acids. */
  function ValidChars(residues: string, aa: bool): (n: nat)
    ensures n <= |residues|
  {
    RegularAndIrregularWithinLength(residues);
    if aa then |residues| - CountIrregularCharsAa(residues) else CountRegularCharsNa(residues)
  }

  /** The name a passing record is written under: whitespace runs collapsed to
      one blank, then stripped. */
  function CollapsedName(name: string): string {
    Strip(CollapseSpace(name))
  }

  /** A record that reaches the length tests: named, and without digits. */
  predicate Screened(rec: SeqRecord) {
    Strip(rec.id) != [] && !HasDigit(rec.residues)
  }

  /** The decision for one record, given the names accepted so far. The
      tests run in a fixed order, so a nameless record is never tested
      further, and the only failure is an empty, named, digit-free sequence
      that passes both length tests and reaches the ratio. */
  function Judge(rec: SeqRecord, ids: set<string>, s: Settings): (r: Result<Verdict, CleanError>)
    ensures r == Success(NoName) <==> Strip(rec.id) == []
    ensures r == Success(Numbers) <==> Strip(rec.id) != [] && HasDigit(rec.residues)
    ensures r.Failure? <==> Strip(rec.id) != [] && !HasDigit(rec.residues) && rec.residues == []
                            && s.minLength <= 0 && !(s.minLength < s.maxLength < 0)
    ensures r.Failure? ==> r.error == DivisionByZero
    ensures r == Success(TooShort) <==> Screened(rec) && |rec.residues| < s.minLength
    ensures r == Success(TooLong) <==>
              Screened(rec) && s.minLength <= |rec.residues| && s.minLength < s.maxLength < |rec.residues|
    ensures r == Success(IrregularChars) <==>
              Screened(rec) && s.minLength <= |rec.residues| && !(s.minLength < s.maxLength < |rec.residues|)
              && |rec.residues| > 0 && Ratio(ValidChars(rec.residues, s.aa), |rec.residues|) < s.minRatio
    ensures r == Success(IdenticalId) <==>
              Screened(rec) && Acceptable(SeqRecord(CollapsedName(Strip(rec.id)), rec.residues), s)
              && s.uniqueIds && CollapsedName(Strip(rec.id)) in ids
    ensures r.Success? && r.value.Passed? <==>
              Screened(rec) && Acceptable(SeqRecord(CollapsedName(Strip(rec.id)), rec.residues), s)
              && !(s.uniqueIds && CollapsedName(Strip(rec.id)) in ids)
    ensures r.Success? && r.value.Passed? ==> r.value.name == CollapsedName(Strip(rec.id))
  {
    var name := Strip(rec.id);
    var length := |rec.residues|;
    if |name| == 0 then Success(NoName)
    else if HasDigit(rec.residues) then Success(Numbers)
    else if length < s.minLength then Success(TooShort)
    else if s.minLength < s.maxLength < length then Success(TooLong)
    else if length == 0 then Failure(DivisionByZero)
    else if Ratio(ValidChars(rec.residues, s.aa), length) >= s.minRatio then
      var nn := CollapsedName(name);
      if s.uniqueIds && nn in ids then Success(IdenticalId) else Success(Passed(nn))
    else Success(IrregularChars)
  }

  /** The counters, the accepted names and the records written. */
  datatype Tally = Tally(total: nat, noName: nat, numbers: nat, tooShort: nat, tooLong: nat,
                         irregular: nat, identical: nat, passed: nat,
                         ids: set<string>, written: seq<SeqRecord>)

  function Tallied(t: Tally, rec: SeqRecord, v: Verdict): Tally {
    var t := t.(total := t.total + 1);
    match v
    case NoName => t.(noName := t.noName + 1)
    case Numbers => t.(numbers := t.numbers + 1)
    case TooShort => t.(tooShort := t.tooShort + 1)
    case TooLong => t.(tooLong := t.tooLong + 1)
    case IrregularChars => t.(irregular := t.irregular + 1)
    case IdenticalId => t.(identical := t.identical + 1)
    case Passed(nn) =>
      t.(ids := t.ids + {nn}, written := t.written + [SeqRecord(nn, rec.residues)], passed := t.passed + 1)
  }

  function EmptyTally(): Tally {
    Tally(0, 0, 0, 0, 0, 0, 0, 0, {}, [])
  }

  /** One record of the loop: judged, then counted. */
  function RecordStep(t: Tally, rec: SeqRecord, s: Settings): Result<Tally, CleanError> {
    match Judge(rec, t.ids, s)
    case Failure(e) => Failure(e)
    case Success(v) => Success(Tallied(t, rec, v))
  }

  function FilterStep(s: Settings): (Tally, SeqRecord, nat) -> Result<Tally, CleanError> {
    (t: Tally, rec: SeqRecord, k: nat) => RecordStep(t, rec, s)
  }

  /** The loop over the records, stopping at the first division by zero. */
  function Filter(records: seq<SeqRecord>, s: Settings): Result<Tally, CleanError> {
    Fold(records, EmptyTally(), FilterStep(s))
  }

  /** `clean_mol_seqs`: the records are consumed as the generator yields them,
      so the records yielded before a malformed header are still judged. */
  function Run(lines: seq<string>, outputExists: bool, s: Settings): Result<Tally, CleanError> {
    if outputExists then Failure(OutputExists)
    else
      match Stream(lines, true)
      case Success(records) => Filter(records, s)
      case Failure(e) =>
        match Filter(e.yielded, s)
        case Failure(z) => Failure(z)
        case Success(_) => Failure(MalformedHeader(e.lineIndex))
  }

  method CleanMolSeqs(lines: seq<string>, outputExists: bool, s: Settings) returns (r: Result<Tally, CleanError>)
    ensures r == Run(lines, outputExists, s)
  {
    if outputExists {
      return Failure(OutputExists);
    }
    var streamed := StreamFasta(lines, true);
    var records := if streamed.Success? then streamed.value else streamed.error.yielded;
    r := FilterRecords(records, s);
    if r.Success? && streamed.Failure? {
      r := Failure(MalformedHeader(streamed.error.lineIndex));
    }
  }

  /** The loop over no records leaves the tally empty. */
  lemma FilterEmpty(s: Settings)
    ensures Filter([], s) == Success(EmptyTally())
  {
  }

  /** The loop over one more record is one more step. */
  lemma FilterNext(records: seq<SeqRecord>, i: nat, s: Settings, t: Tally)
    requires i < |records| && Filter(records[..i], s) == Success(t)
    ensures Filter(records[..i + 1], s) == RecordStep(t, records[i], s)
  {
    assert records[..i + 1][..i] == records[..i];
  }

  /** A record judged `v` after the tally `t` is counted under `v`. */
  lemma FilterCounts(records: seq<SeqRecord>, i: nat, s: Settings, t: Tally, v: Verdict)
    requires i < |records| && Filter(records[..i], s) == Success(t)
    requires Judge(records[i], t.ids, s) == Success(v)
    ensures Filter(records[..i + 1], s) == Success(Tallied(t, records[i], v))
  {
    FilterNext(records, i, s, t);
  }

  /** A record whose judgement fails stops the loop with that failure. */
  lemma FilterFails(records: seq<SeqRecord>, i: nat, s: Settings, t: Tally, e: CleanError)
    requires i < |records| && Filter(records[..i], s) == Success(t)
    requires Judge(records[i], t.ids, s) == Failure(e)
    ensures Filter(records, s) == Failure(e)
  {
    FilterNext(records, i, s, t);
    FoldFailureStays(records, i + 1, EmptyTally(), FilterStep(s));
  }

  /** The tests of one record, in the order the loop body of `clean_mol_seqs`
      applies them. */
  method JudgeRecord(rec: SeqRecord, ids: set<string>, s: Settings) returns (v: Result<Verdict, CleanError>)
    ensures v == Judge(rec, ids, s)
  {
    var name := Strip(rec.id);
    if |name| == 0 {
      return Success(NoName);
    }
    if HasDigit(rec.residues) {
      return Success(Numbers);
    }
    var length := |rec.residues|;
    if length < s.minLength {
      return Success(TooShort);
    }
    if s.minLength < s.maxLength < length {
      return Success(TooLong);
    }
    var reg := ValidChars(rec.residues, s.aa);
    if length == 0 {
      return Failure(DivisionByZero);
    }
    var ratio := Ratio(reg, length);
    if ratio >= s.minRatio {
      var nn := CollapsedName(name);
      if s.uniqueIds && nn in ids {
        return Success(IdenticalId);
      }
      return Success(Passed(nn));
    }
    return Success(IrregularChars);
  }

  /** The loop of `clean_mol_seqs` over the records; its counters, accepted
      names and written records are kept together in `t`. */
  method FilterRecords(records: seq<SeqRecord>, s: Settings) returns (r: Result<Tally, CleanError>)
    ensures r == Filter(records, s)
  {
    var t := EmptyTally();
    var i := 0;
    assert records[..0] == [];
    FilterEmpty(s);
    while i < |records|
      invariant 0 <= i <= |records|
      invariant Filter(records[..i], s) == Success(t)
    {
      var v := JudgeRecord(records[i], t.ids, s);
      if v.Failure? {
        FilterFails(records, i, s, t, v.error);
        return Failure(v.error);
      }
      FilterCounts(records, i, s, t, v.value);
      t := Tallied(t, records[i], v.value);
      i := i + 1;
    }
    assert records[..i] == records;
    r := Success(t);
  }

  /** Whether a written record satisfies every test of the filter. */
  predicate Acceptable(w: SeqRecord, s: Settings) {
    !HasDigit(w.residues)
    && |w.residues| >= s.minLength
    && !(s.minLength < s.maxLength < |w.residues|)
    && |w.residues| > 0
    && Ratio(ValidChars(w.residues, s.aa), |w.residues|) >= s.minRatio
  }

  /** What holds of the tally after every record. */
  predicate TallyInvariant(t: Tally, s: Settings) {
    t.total == t.noName + t.numbers + t.tooShort + t.tooLong + t.irregular + t.identical + t.passed
    && |t.written| == t.passed
    && (forall k :: 0 <= k < |t.written| ==> t.written[k].id in t.ids && Acceptable(t.written[k], s))
    && (forall nn :: nn in t.ids ==> exists k :: 0 <= k < |t.written| && t.written[k].id == nn)
    && (s.uniqueIds ==> forall j, k :: 0 <= j < k < |t.written| ==> t.written[j].id != t.written[k].id)
  }

  /** A record passes only when it meets every test, under its collapsed
      name, and with unique names only when that name is new. */
  lemma JudgePassed(rec: SeqRecord, ids: set<string>, s: Settings)
    ensures var nn := CollapsedName(Strip(rec.id));
      Judge(rec, ids, s) == Success(Passed(nn)) <==>
        Strip(rec.id) != [] && Acceptable(SeqRecord(nn, rec.residues), s) && !(s.uniqueIds && nn in ids)
    ensures Judge(rec, ids, s).Success? && Judge(rec, ids, s).value.Passed? ==>
      var nn := Judge(rec, ids, s).value.name;
      nn == CollapsedName(Strip(rec.id))
      && Acceptable(SeqRecord(nn, rec.residues), s)
      && (s.uniqueIds ==> nn !in ids)
  {
    var nn := CollapsedName(Strip(rec.id));
    var r := Judge(rec, ids, s);
    if r.Success? && r.value.Passed? {
      assert r.value.name == nn;
      assert r == Success(Passed(nn));
    }
  }

  /** Writing an acceptable record under a name that is new whenever names
      must be unique keeps the invariant. */
  lemma WriteKeeps(t: Tally, w: SeqRecord, s: Settings)
    requires TallyInvariant(t, s) && Acceptable(w, s) && (s.uniqueIds ==> w.id !in t.ids)
    ensures TallyInvariant(t.(total := t.total + 1, ids := t.ids + {w.id}, written := t.written + [w],
                              passed := t.passed + 1), s)
  {
    var t' := t.(total := t.total + 1, ids := t.ids + {w.id}, written := t.written + [w],
                 passed := t.passed + 1);
    WrittenAcceptable(t.written, t.ids, w, s);
    WrittenIdsWitnessed(t.written, t.ids, w);
    if s.uniqueIds {
      WrittenIdsUnique(t.written, t.ids, w);
    }
  }

  lemma WrittenAcceptable(written: seq<SeqRecord>, ids: set<string>, w: SeqRecord, s: Settings)
    requires forall k :: 0 <= k < |written| ==> written[k].id in ids && Acceptable(written[k], s)
    requires Acceptable(w, s)
    ensures forall k :: 0 <= k < |written + [w]| ==>
      (written + [w])[k].id in ids + {w.id} && Acceptable((written + [w])[k], s)
  {
    var ws := written + [w];
    forall k | 0 <= k < |ws|
      ensures ws[k].id in ids + {w.id} && Acceptable(ws[k], s)
    {
      if k < |written| {
        assert ws[k] == written[k];
      } else {
        assert ws[k] == w;
      }
    }
  }

  lemma WrittenIdsWitnessed(written: seq<SeqRecord>, ids: set<string>, w: SeqRecord)
    requires forall nn :: nn in ids ==> exists k :: 0 <= k < |written| && written[k].id == nn
    ensures forall nn :: nn in ids + {w.id} ==>
      exists k :: 0 <= k < |written + [w]| && (written + [w])[k].id == nn
  {
    var ws := written + [w];
    forall nn | nn in ids + {w.id}
      ensures exists k :: 0 <= k < |ws| && ws[k].id == nn
    {
      if nn == w.id {
        assert ws[|written|].id == nn;
      } else {
        var k :| 0 <= k < |written| && written[k].id == nn;
        assert ws[k].id == nn;
      }
    }
  }

  lemma WrittenIdsUnique(written: seq<SeqRecord>, ids: set<string>, w: SeqRecord)
    requires forall k :: 0 <= k < |written| ==> written[k].id in ids
    requires forall j, k :: 0 <= j < k < |written| ==> written[j].id != written[k].id
    requires w.id !in ids
    ensures forall j, k :: 0 <= j < k < |written + [w]| ==> (written + [w])[j].id != (written + [w])[k].id
  {
    var ws := written + [w];
    forall j, k | 0 <= j < k < |ws|
      ensures ws[j].id != ws[k].id
    {
      assert ws[j] == written[j];
      if k < |written| {
        assert ws[k] == written[k];
      } else {
        assert ws[k] == w;
      }
    }
  }

  /** Counting a record under any reason keeps the invariant, provided a
      passing record meets the tests under a name that is new when names must
      be unique. */
  lemma TalliedKeeps(t: Tally, rec: SeqRecord, v: Verdict, s: Settings)
    requires TallyInvariant(t, s)
    requires v.Passed? ==> Acceptable(SeqRecord(v.name, rec.residues), s) && (s.uniqueIds ==> v.name !in t.ids)
    ensures TallyInvariant(Tallied(t, rec, v), s)
    ensures Tallied(t, rec, v).total == t.total + 1
  {
    if v.Passed? {
      WriteKeeps(t, SeqRecord(v.name, rec.residues), s);
    }
  }

  lemma CountKeeps(t: Tally, rec: SeqRecord, s: Settings)
    requires TallyInvariant(t, s) && RecordStep(t, rec, s).Success?
    ensures TallyInvariant(RecordStep(t, rec, s).value, s)
    ensures RecordStep(t, rec, s).value.total == t.total + 1
  {
    var v := Judge(rec, t.ids, s).value;
    assert RecordStep(t, rec, s).value == Tallied(t, rec, v);
    if v.Passed? {
      JudgePassed(rec, t.ids, s);
    }
    TalliedKeeps(t, rec, v, s);
  }

  lemma {:induction false} FilterInvariant(records: seq<SeqRecord>, s: Settings)
    requires Filter(records, s).Success?
    ensures TallyInvariant(Filter(records, s).value, s)
    ensures Filter(records, s).value.total == |records|
  {
    if records != [] {
      var n := |records| - 1;
      var prev := Filter(records[..n], s);
      assert prev.Success?;
      assert Filter(records, s) == RecordStep(prev.value, records[n], s);
      FilterInvariant(records[..n], s);
      CountKeeps(prev.value, records[n], s);
    }
  }

  /** Every record is counted once, under exactly one reason; the records
      written pass every test; with unique names no name is written twice;
      and the set of accepted names is the set of names written. */
  lemma RunProperties(lines: seq<string>, outputExists: bool, s: Settings)
    requires Run(lines, outputExists, s).Success?
    ensures var t := Run(lines, outputExists, s).value;
      TallyInvariant(t, s)
      && t.total == HeaderCount(lines)
      && t.noName == 0
  {
    var records := Stream(lines, true).value;
    StreamProperties(lines);
    FilterInvariant(records, s);
    NamedRecordsNeverNameless(records, s);
  }

  /** The records the generator yields all have a non-empty stripped
      identifier, so the 'empty id' branch of the filter never counts anything. */
  lemma {:induction false} NamedRecordsNeverNameless(records: seq<SeqRecord>, s: Settings)
    requires forall k :: 0 <= k < |records| ==> Strip(records[k].id) != []
    requires Filter(records, s).Success?
    ensures Filter(records, s).value.noName == 0
  {
    if records != [] {
      var n := |records| - 1;
      var prev := Filter(records[..n], s);
      assert prev.Success?;
      assert Filter(records, s) == RecordStep(prev.value, records[n], s);
      NamedRecordsNeverNameless(records[..n], s);
      NamedRecordNotNameless(prev.value, records[n], s);
    }
  }

  lemma NamedRecordNotNameless(t: Tally, rec: SeqRecord, s: Settings)
    requires Strip(rec.id) != [] && RecordStep(t, rec, s).Success?
    ensures RecordStep(t, rec, s).value.noName == t.noName
  {
    var v := Judge(rec, t.ids, s).value;
    assert v != NoName;
    assert RecordStep(t, rec, s).value == Tallied(t, rec, v);
  }
}
