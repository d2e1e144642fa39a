/// target_match.py: the record of one window comparison. Its constructor
/// checks the geometry of the two coordinate ranges and the two sequences and
/// refuses anything inconsistent; nothing changes a field afterwards, so the
/// record is a datatype value.
module TargetMatch {
  import opened Results
  import Text
  import PeptideMapping

  /** The five `ValueError`s of the constructor, in the order it checks them. */
  datatype GeometryError =
    | StartNotBeforeEnd
    | SequenceLengthsDiffer
    | CoordinateSpansDiffer
    | TargetLengthMismatch
    | QueryLengthMismatch

  /** Distance and score are stored as given: neither is checked. */
  datatype TargetMatch = TargetMatch(
    queryStart: int, queryEnd: int, querySequence: string,
    targetStart: int, targetEnd: int, targetSequence: string,
    distance: int, score: real)

  /** The geometry every constructed match has. */
  predicate Valid(m: TargetMatch) {
    && m.queryStart < m.queryEnd
    && m.targetStart < m.targetEnd
    && |m.querySequence| == |m.targetSequence|
    && m.targetEnd - m.targetStart == m.queryEnd - m.queryStart
    && m.targetEnd - m.targetStart + 1 == |m.targetSequence|
    && m.queryEnd - m.queryStart + 1 == |m.querySequence|
  }

  /** The constructor `TargetMatch(query_start, query_end, query_sequence,
      target_start, target_end, target_sequence, distance, score=0.0)`. */
  function New(queryStart: int, queryEnd: int, querySequence: string,
               targetStart: int, targetEnd: int, targetSequence: string,
               distance: int, score: real := 0.0): (r: Result<TargetMatch, GeometryError>)
    ensures var m := TargetMatch(queryStart, queryEnd, querySequence, targetStart, targetEnd,
                                 targetSequence, distance, score);
      && (r.Success? <==> Valid(m))
      && (r.Success? ==> r.value == m)
    ensures r == Failure(StartNotBeforeEnd) <==> targetEnd <= targetStart || queryEnd <= queryStart
    ensures r == Failure(SequenceLengthsDiffer) <==>
      targetStart < targetEnd && queryStart < queryEnd && |querySequence| != |targetSequence|
  {
    if targetEnd <= targetStart || queryEnd <= queryStart then Failure(StartNotBeforeEnd)
    else if |querySequence| != |targetSequence| then Failure(SequenceLengthsDiffer)
    else if targetEnd - targetStart != queryEnd - queryStart then Failure(CoordinateSpansDiffer)
    else if targetEnd - targetStart + 1 != |targetSequence| then Failure(TargetLengthMismatch)
    else if queryEnd - queryStart + 1 != |querySequence| then Failure(QueryLengthMismatch)
    else Success(TargetMatch(queryStart, queryEnd, querySequence, targetStart, targetEnd,
                             targetSequence, distance, score))
  }

  /** `calc_length()`, which `len()` also returns. */
  function CalcLength(m: TargetMatch): int {
    1 + m.queryEnd - m.queryStart
  }

  lemma LengthOfValid(m: TargetMatch)
    requires Valid(m)
    ensures CalcLength(m) == |m.targetSequence| == |m.querySequence|
    ensures CalcLength(m) == m.targetEnd - m.targetStart + 1 >= 2
  {
  }

  /** A one-residue match is never constructed: its start would equal its end. */
  lemma NoSingleResidueMatch(qs: int, qseq: string, ts: int, tseq: string, d: int, score: real)
    ensures New(qs, qs, qseq, ts, ts, tseq, d, score) == Failure(StartNotBeforeEnd)
  {
  }

  /** `get_query_sequence()` returns the stored TARGET sequence. */
  function GetQuerySequence(m: TargetMatch): (s: string)
    ensures s == m.targetSequence
  {
    m.targetSequence
  }

  /** `__lt__`: scores only. */
  predicate Less(a: TargetMatch, b: TargetMatch) {
    a.score < b.score
  }

  lemma LessIsStrictOrderOnScores(a: TargetMatch, b: TargetMatch, c: TargetMatch)
    ensures !Less(a, a)
    ensures Less(a, b) && Less(b, c) ==> Less(a, c)
    ensures a.score == b.score ==> !Less(a, b) && !Less(b, a)
    ensures a.score != b.score ==> Less(a, b) || Less(b, a)
  {
  }

  /** The header of `to_fasta()`: "start-end_distance", the distance printed as
      a float ("11.0"). */
  function FastaHeader(m: TargetMatch): string {
    Text.IntToString(m.targetStart) + "-" + Text.IntToString(m.targetEnd)
    + "_" + Text.IntToString(m.distance) + ".0"
  }

  /** `to_fasta()`. */
  function ToFasta(m: TargetMatch): string {
    ">" + FastaHeader(m) + "\n" + m.targetSequence
  }

  /** Split at line breaks, the FASTA text is the '>' header line and then the
      target sequence. */
  lemma ToFastaLines(m: TargetMatch)
    requires '\n' !in m.targetSequence
    ensures Text.Split(ToFasta(m), "\n") == [">" + FastaHeader(m), m.targetSequence]
  {
    Text.IntToStringNoNewline(m.targetStart);
    Text.IntToStringNoNewline(m.targetEnd);
    Text.IntToStringNoNewline(m.distance);
    Text.SplitAtNewline(">" + FastaHeader(m), m.targetSequence);
  }

  /** The demonstration block: a distance of 11 on a five-residue match is accepted,
      the length is 5, and ordering follows the scores 0.1 and 0.2. */
  lemma DemonstrationMatches()
    ensures New(3, 7, "abgty", 13, 17, "abxxx", 11, 0.1).Success?
    ensures var t := New(3, 7, "abgty", 13, 17, "abxxx", 11, 0.1).value;
            var t2 := New(3, 7, "abgty", 13, 17, "abxxx", 11, 0.2).value;
      && CalcLength(t) == 5 && t.distance > CalcLength(t)
      && GetQuerySequence(t) == "abxxx" != t.querySequence
      && Less(t, t2) && !Less(t2, t)
  {
  }

  /** Each window the search keeps fits a valid match against the whole query
      placed at 0 .. |query|-1, as soon as the query has two residues or more. */
  lemma HitsMakeValidMatches(query: string, target: string, k: nat)
    requires |query| <= |target|
    requires k < |PeptideMapping.Optimal(query, target)|
    ensures var h := PeptideMapping.Optimal(query, target)[k];
            var r := New(0, |query| - 1, query, h.start, h.end, h.window, h.distance);
      && (|query| >= 2 ==> r.Success? && CalcLength(r.value) == |query|)
      && (|query| < 2 ==> r == Failure(StartNotBeforeEnd))
  {
    PeptideMapping.OptimalProperties(query, target);
  }
}
