/// clean_mol_seq.py: `CleanMolSeq.read_protein_fasta_file`, which keeps the
/// well-formed protein records and collects their genome accessions;
/// `clean_mol_seqs`, which filters SARS-CoV-2 genome records by name, length
/// and composition, builds a histogram of their irregular characters, and
/// writes the genomes that have a protein; and
/// `extract_from_protein_fasta_file`, which writes the proteins of the genomes
/// written.
module CleanMolSeq {
  import opened Results
  import opened Text
  import opened Molseq
  import opened Folds
  import Arith
  import CleanFasta

  datatype CleanError =
    | ProteinHeader(lineIndex: nat)   // the generator failed on a header line of the protein file
    | GenomeHeader(lineIndex: nat)    // the generator failed on a header line of the genome file
    | DivisionByZero                  // an empty genome sequence with a matching name reached the ratio
    | NoGenomeField(id: string)       // `split('|')[1]` on an id without '|'

  /** `name.split('|')[1]`, if the id has a '|'. */
  function GenomeField(id: string): (r: Option<string>)
    ensures r.Some? <==> |Split(id, "|")| >= 2
    ensures r.Some? ==> r.value == Split(id, "|")[1]
  {
    var parts := Split(id, "|");
    if |parts| >= 2 then Some(parts[1]) else None
  }

  // ---------------------------------------------------------------------------
  // read_protein_fasta_file

  /** The counter a protein record goes to; a kept record gives its genome
      and protein accessions. */
  datatype ProteinVerdict =
    | ProteinShort
    | ProteinIrregular
    | ProteinBadName
    | ProteinKept(genomeAcc: string, proteinAcc: string)

  /** The tests of one protein record: its length, then its irregular
      amino-acid characters, then the number of '|' fields of its id. */
  function JudgeProtein(rec: SeqRecord, minLength: int): (v: ProteinVerdict)
    ensures v.ProteinKept? <==>
              |rec.residues| >= minLength && CountIrregularCharsAa(rec.residues) == 0
              && |Split(rec.id, "|")| > 2
    ensures v.ProteinKept? ==> v.genomeAcc == Split(rec.id, "|")[1] && v.proteinAcc == Split(rec.id, "|")[2]
    ensures v == ProteinShort <==> |rec.residues| < minLength
    ensures v == ProteinIrregular <==> |rec.residues| >= minLength && CountIrregularCharsAa(rec.residues) > 0
  {
    if |rec.residues| >= minLength then
      if CountIrregularCharsAa(rec.residues) < 1 then
        var parts := Split(rec.id, "|");
        if |parts| > 2 then ProteinKept(parts[1], parts[2]) else ProteinBadName
      else ProteinIrregular
    else ProteinShort
  }

  /** The counters, the genome set and the accession pairs written. */
  datatype ProteinTally = ProteinTally(total: nat, ignoredLength: nat, ignoredIrregular: nat, ignoredName: nat,
                                       genomes: set<string>, pairs: seq<(string, string)>)

  function ProteinTallied(t: ProteinTally, v: ProteinVerdict): ProteinTally {
    var t := t.(total := t.total + 1);
    match v
    case ProteinShort => t.(ignoredLength := t.ignoredLength + 1)
    case ProteinIrregular => t.(ignoredIrregular := t.ignoredIrregular + 1)
    case ProteinBadName => t.(ignoredName := t.ignoredName + 1)
    case ProteinKept(g, p) => t.(genomes := t.genomes + {g}, pairs := t.pairs + [(g, p)])
  }

  /** The protein loop over `records`. */
  function ProteinScan(records: seq<SeqRecord>, minLength: int): ProteinTally {
    if records == [] then ProteinTally(0, 0, 0, 0, {}, [])
    else
      var n := |records| - 1;
      ProteinTallied(ProteinScan(records[..n], minLength), JudgeProtein(records[n], minLength))
  }

  /** `read_protein_fasta_file`: the generator's error ends the reading. */
  function ReadProteins(lines: seq<string>, minLength: int): Result<ProteinTally, CleanError> {
    match CleanFasta.Stream(lines, true)
    case Failure(e) => Failure(ProteinHeader(e.lineIndex))
    case Success(records) => Success(ProteinScan(records, minLength))
  }

  method ReadProteinRecords(records: seq<SeqRecord>, minLength: int) returns (t: ProteinTally)
    ensures t == ProteinScan(records, minLength)
  {
    var total, ignoredLength, ignoredIrregular, ignoredName := 0, 0, 0, 0;
    var genomes: set<string> := {};
    var pairs: seq<(string, string)> := [];
    var i := 0;
    assert records[..0] == [];
    while i < |records|
      invariant 0 <= i <= |records|
      invariant ProteinScan(records[..i], minLength) ==
                ProteinTally(total, ignoredLength, ignoredIrregular, ignoredName, genomes, pairs)
    {
      assert records[..i + 1][..i] == records[..i];
      var rec := records[i];
      total := total + 1;
      var length := |rec.residues|;
      if length >= minLength {
        var irr := CountIrregularCharsAa(rec.residues);
        if irr < 1 {
          var s := Split(rec.id, "|");
          if |s| > 2 {
            pairs := pairs + [(s[1], s[2])];
            genomes := genomes + {s[1]};
          } else {
            ignoredName := ignoredName + 1;
          }
        } else {
          ignoredIrregular := ignoredIrregular + 1;
        }
      } else {
        ignoredLength := ignoredLength + 1;
      }
      i := i + 1;
    }
    assert records[..i] == records;
    t := ProteinTally(total, ignoredLength, ignoredIrregular, ignoredName, genomes, pairs);
  }

  method ReadProteinFastaFile(lines: seq<string>, minLength: int) returns (r: Result<ProteinTally, CleanError>)
    ensures r == ReadProteins(lines, minLength)
  {
    var streamed := CleanFasta.StreamFasta(lines, true);
    var records := if streamed.Success? then streamed.value else streamed.error.yielded;
    var t := ReadProteinRecords(records, minLength);
    if streamed.Failure? {
      return Failure(ProteinHeader(streamed.error.lineIndex));
    }
    r := Success(t);
  }

  /** The accession pair a protein record contributes, if it is kept. */
  function ProteinPairOf(minLength: int): SeqRecord -> Option<(string, string)> {
    (rec: SeqRecord) =>
      match JudgeProtein(rec, minLength)
      case ProteinKept(g, p) => Some((g, p))
      case _ => None
  }

  /** Every protein record is counted once, under exactly one reason; the
      pairs written are those of the kept records, in order; and the genome
      set returned is exactly the set of their genome accessions. */
  lemma {:induction false} ProteinProperties(records: seq<SeqRecord>, minLength: int)
    ensures var t := ProteinScan(records, minLength);
      t.total == |records|
      && t.total == t.ignoredLength + t.ignoredIrregular + t.ignoredName + |t.pairs|
      && t.pairs == Collect(records, ProteinPairOf(minLength))
      && forall g :: g in t.genomes <==> exists k :: 0 <= k < |t.pairs| && t.pairs[k].0 == g
  {
    if records != [] {
      var n := |records| - 1;
      var prev := ProteinScan(records[..n], minLength);
      ProteinProperties(records[..n], minLength);
      CollectStep(records, n, ProteinPairOf(minLength));
      assert records[..n + 1] == records;
      var v := JudgeProtein(records[n], minLength);
      assert ProteinScan(records, minLength) == ProteinTallied(prev, v);
      TalliedKeeps(prev, v);
    }
  }

  /** One protein record keeps the counts balanced and the genome set equal
      to the accessions of the pairs. */
  lemma TalliedKeeps(prev: ProteinTally, v: ProteinVerdict)
    requires prev.total == prev.ignoredLength + prev.ignoredIrregular + prev.ignoredName + |prev.pairs|
    requires forall g :: g in prev.genomes <==> exists k :: 0 <= k < |prev.pairs| && prev.pairs[k].0 == g
    ensures var t := ProteinTallied(prev, v);
      t.total == prev.total + 1
      && t.total == t.ignoredLength + t.ignoredIrregular + t.ignoredName + |t.pairs|
      && t.pairs == prev.pairs + (match v case ProteinKept(g, p) => [(g, p)] case _ => [])
      && forall g :: g in t.genomes <==> exists k :: 0 <= k < |t.pairs| && t.pairs[k].0 == g
  {
    var t := ProteinTallied(prev, v);
    if v.ProteinKept? {
      forall g
        ensures g in t.genomes <==> exists k :: 0 <= k < |t.pairs| && t.pairs[k].0 == g
      {
        assert forall k :: 0 <= k < |prev.pairs| ==> t.pairs[k] == prev.pairs[k];
        assert t.pairs[|prev.pairs|].0 == v.genomeAcc;
      }
    }
  }


  // ---------------------------------------------------------------------------
  // clean_mol_seqs

  /** The lower-cased id names SARS-CoV-2 by one of the five markers. */
  predicate NamedSars(id: string) {
    var name := Lower(id);
    Contains(name, "|severe_acute_respiratory_syndrome_related_coronavirus") || Contains(name, "2019_ncov")
    || Contains(name, "hcov_19") || Contains(name, "sars_cov_2") || Contains(name, "sars_cov2")
  }

  /** The 22 counters of the irregular-character histogram. */
  type Buckets = b: seq<nat> | |b| == 22 witness seq(22, k => 0)

  /** The counter `irreg` irregular characters go to: 0 for none, `j` for
      `50 * (j - 1) <= irreg < 50 * j` (with bucket 1 from 1 to 49), and 21
      from 1000 on. */
  function Bucket(irreg: nat): (b: nat)
    ensures b < 22
  {
    if irreg == 0 then 0 else if irreg < 1000 then irreg / 50 + 1 else 21
  }

  /** The elif chain of `clean_mol_seqs` over the histogram counters. */
  method BucketOf(irreg: nat) returns (b: nat)
    ensures b == Bucket(irreg)
  {
    if irreg == 0 { b := 0; }
    else if irreg < 50 { b := 1; }
    else if irreg < 100 { b := 2; }
    else if irreg < 150 { b := 3; }
    else if irreg < 200 { b := 4; }
    else if irreg < 250 { b := 5; }
    else if irreg < 300 { b := 6; }
    else if irreg < 350 { b := 7; }
    else if irreg < 400 { b := 8; }
    else if irreg < 450 { b := 9; }
    else if irreg < 500 { b := 10; }
    else if irreg < 550 { b := 11; }
    else if irreg < 600 { b := 12; }
    else if irreg < 650 { b := 13; }
    else if irreg < 700 { b := 14; }
    else if irreg < 750 { b := 15; }
    else if irreg < 800 { b := 16; }
    else if irreg < 850 { b := 17; }
    else if irreg < 900 { b := 18; }
    else if irreg < 950 { b := 19; }
    else if irreg < 1000 { b := 20; }
    else { b := 21; }
  }

  /** The buckets between the first and the last are 50 wide: a count lands in
      bucket `j` (1 <= j <= 20) exactly when it is positive, at least
      `50 * (j - 1)` and below `50 * j`. */
  lemma BucketRange(irreg: nat, j: nat)
    requires 1 <= j <= 20
    ensures Bucket(irreg) == j <==> 0 < irreg && 50 * (j - 1) <= irreg < 50 * j
    ensures Bucket(irreg) == 0 <==> irreg == 0
    ensures Bucket(irreg) == 21 <==> irreg >= 1000
  {
    if 0 < irreg < 1000 {
      var q, r := irreg / 50, irreg % 50;
      assert irreg == q * 50 + r;
      if 50 * (j - 1) <= irreg < 50 * j {
        Arith.DivUnique(irreg, 50, j - 1, irreg - 50 * (j - 1));
      }
    }
  }

  /** The settings of the genome filter. */
  datatype Settings = Settings(minLength: int, minRatio: real)

  /** What happens to a genome record whose length passed. */
  datatype Outcome =
    | IrregularChars          // the ratio is below the minimum
    | NoProtein               // the genome accession has no kept protein
    | Kept(genomeAcc: string) // written
    | Unchecked               // passed, but no genome set to check against

  /** The decision for one genome record: the name test, then the length,
      then (with the count of irregular characters recorded) the ratio and
      the genome set. */
  datatype Verdict =
    | IgnoredName
    | IgnoredLength
    | Measured(irreg: nat, outcome: Outcome)

  /** The decision for one genome record, given the genome set of the
      proteins (`if genomes:` tests it for being non-empty). */
  function Judge(rec: SeqRecord, genomes: set<string>, s: Settings): (v: Result<Verdict, CleanError>)
    ensures v == Success(IgnoredName) <==> !NamedSars(rec.id)
    ensures NamedSars(rec.id) && |rec.residues| == 0 ==> v == Failure(DivisionByZero)
    ensures v == Success(IgnoredLength) <==> NamedSars(rec.id) && 0 < |rec.residues| < s.minLength
    ensures v.Success? && v.value.Measured? ==>
              NamedSars(rec.id) && 0 < |rec.residues| && s.minLength <= |rec.residues|
              && v.value.irreg == |rec.residues| - CountRegularCharsNa(rec.residues)
              && (v.value.outcome.IrregularChars? <==> RegularNaRatio(rec.residues) < s.minRatio)
              && (v.value.outcome.Unchecked? <==> RegularNaRatio(rec.residues) >= s.minRatio && genomes == {})
    ensures v.Success? && v.value.Measured? && v.value.outcome.Kept? ==>
              GenomeField(rec.id) == Some(v.value.outcome.genomeAcc) && v.value.outcome.genomeAcc in genomes
    ensures v.Success? && v.value.Measured? && v.value.outcome == NoProtein ==>
              GenomeField(rec.id).Some? && GenomeField(rec.id).value !in genomes
    ensures v.Failure? ==> v.error == DivisionByZero || v.error == NoGenomeField(rec.id)
    ensures NamedSars(rec.id) && 0 < |rec.residues| && s.minLength <= |rec.residues|
            && RegularNaRatio(rec.residues) >= s.minRatio && genomes != {} ==>
              (GenomeField(rec.id).None? <==> v == Failure(NoGenomeField(rec.id)))
              && (GenomeField(rec.id).Some? && GenomeField(rec.id).value in genomes ==>
                    v.Success? && v.value.Measured? && v.value.outcome == Kept(GenomeField(rec.id).value))
              && (GenomeField(rec.id).Some? && GenomeField(rec.id).value !in genomes ==>
                    v.Success? && v.value.Measured? && v.value.outcome == NoProtein)
  {
    if !NamedSars(rec.id) then Success(IgnoredName)
    else
      var length := |rec.residues|;
      if length == 0 then Failure(DivisionByZero)
      else if length < s.minLength then Success(IgnoredLength)
      else
        RegularAndIrregularWithinLength(rec.residues);
        var irreg := length - CountRegularCharsNa(rec.residues);
        if RegularNaRatio(rec.residues) < s.minRatio then Success(Measured(irreg, IrregularChars))
        else if genomes == {} then Success(Measured(irreg, Unchecked))
        else
          match GenomeField(rec.id)
          case None => Failure(NoGenomeField(rec.id))
          case Some(g) => if g !in genomes then Success(Measured(irreg, NoProtein)) else Success(Measured(irreg, Kept(g)))
  }

  /** The counters, the genome accessions kept, the histogram (by exact count
      and by bucket) and the genome records written. */
  datatype Tally = Tally(total: nat, ignoredName: nat, ignoredLength: nat, ignoredIrregular: nat,
                         ignoredNoProtein: nat, kept: nat, keepGenomes: set<string>,
                         irregCount: map<nat, nat>, buckets: Buckets, written: seq<SeqRecord>)

  function EmptyTally(): Tally {
    Tally(0, 0, 0, 0, 0, 0, {}, map[], seq(22, k => 0), [])
  }

  /** `irreg_count[irreg] += 1`, or `= 1` for a new count. */
  function CountOnce(m: map<nat, nat>, irreg: nat): map<nat, nat> {
    if irreg in m then m[irreg := m[irreg] + 1] else m[irreg := 1]
  }

  function Tallied(t: Tally, rec: SeqRecord, v: Verdict): Tally {
    match v
    case IgnoredName => t.(ignoredName := t.ignoredName + 1)
    case IgnoredLength => t.(total := t.total + 1, ignoredLength := t.ignoredLength + 1)
    case Measured(irreg, outcome) =>
      var b := Bucket(irreg);
      var t := t.(total := t.total + 1, irregCount := CountOnce(t.irregCount, irreg),
                  buckets := t.buckets[b := t.buckets[b] + 1]);
      match outcome
      case IrregularChars => t.(ignoredIrregular := t.ignoredIrregular + 1)
      case NoProtein => t.(ignoredNoProtein := t.ignoredNoProtein + 1)
      case Kept(g) => t.(keepGenomes := t.keepGenomes + {g}, kept := t.kept + 1, written := t.written + [rec])
      case Unchecked => t
  }

  function RecordStep(t: Tally, rec: SeqRecord, genomes: set<string>, s: Settings): Result<Tally, CleanError> {
    match Judge(rec, genomes, s)
    case Failure(e) => Failure(e)
    case Success(v) => Success(Tallied(t, rec, v))
  }

  function FilterStep(genomes: set<string>, s: Settings): (Tally, SeqRecord, nat) -> Result<Tally, CleanError> {
    (t: Tally, rec: SeqRecord, k: nat) => RecordStep(t, rec, genomes, s)
  }

  /** The genome loop over the records, stopping at the first abort. */
  function Filter(records: seq<SeqRecord>, genomes: set<string>, s: Settings): Result<Tally, CleanError> {
    Fold(records, EmptyTally(), FilterStep(genomes, s))
  }

  /** The genome loop as the generator feeds it: the records yielded before a
      malformed header are judged, and an abort among them wins. */
  function GenomeRun(lines: seq<string>, genomes: set<string>, s: Settings): Result<Tally, CleanError> {
    match CleanFasta.Stream(lines, true)
    case Success(records) => Filter(records, genomes, s)
    case Failure(e) =>
      match Filter(e.yielded, genomes, s)
      case Failure(z) => Failure(z)
      case Success(_) => Failure(GenomeHeader(e.lineIndex))
  }

  /** The tests of one genome record, in the order the loop body applies them. */
  method JudgeRecord(rec: SeqRecord, genomes: set<string>, s: Settings) returns (v: Result<Verdict, CleanError>)
    ensures v == Judge(rec, genomes, s)
  {
    if !NamedSars(rec.id) {
      return Success(IgnoredName);
    }
    var reg := CountRegularCharsNa(rec.residues);
    var length := |rec.residues|;
    RegularAndIrregularWithinLength(rec.residues);
    var irreg := length - reg;
    if length == 0 {
      return Failure(DivisionByZero);
    }
    var r := Ratio(reg, length);
    if length < s.minLength {
      return Success(IgnoredLength);
    }
    assert r == RegularNaRatio(rec.residues);
    var outcome: Outcome;
    if r >= s.minRatio {
      if genomes != {} {
        var acc := GenomeField(rec.id);
        if acc.None? {
          return Failure(NoGenomeField(rec.id));
        }
        outcome := if acc.value !in genomes then NoProtein else Kept(acc.value);
      } else {
        outcome := Unchecked;
      }
    } else {
      outcome := IrregularChars;
    }
    return Success(Measured(irreg, outcome));
  }

  /** The counter updates of one judged record. */
  method Count(t: Tally, rec: SeqRecord, v: Verdict) returns (t': Tally)
    ensures t' == Tallied(t, rec, v)
  {
    match v {
      case IgnoredName =>
        t' := t.(ignoredName := t.ignoredName + 1);
      case IgnoredLength =>
        t' := t.(total := t.total + 1, ignoredLength := t.ignoredLength + 1);
      case Measured(irreg, outcome) =>
        var irregCount := t.irregCount;
        if irreg in irregCount {
          irregCount := irregCount[irreg := irregCount[irreg] + 1];
        } else {
          irregCount := irregCount[irreg := 1];
        }
        var b := BucketOf(irreg);
        var buckets := t.buckets[b := t.buckets[b] + 1];
        t' := t.(total := t.total + 1, irregCount := irregCount, buckets := buckets);
        match outcome {
          case IrregularChars => t' := t'.(ignoredIrregular := t'.ignoredIrregular + 1);
          case NoProtein => t' := t'.(ignoredNoProtein := t'.ignoredNoProtein + 1);
          case Kept(g) => t' := t'.(keepGenomes := t'.keepGenomes + {g}, kept := t'.kept + 1, written := t'.written + [rec]);
          case Unchecked =>
        }
    }
  }

  method FilterRecords(records: seq<SeqRecord>, genomes: set<string>, s: Settings) returns (r: Result<Tally, CleanError>)
    ensures r == Filter(records, genomes, s)
  {
    var t := EmptyTally();
    var i := 0;
    assert records[..0] == [];
    while i < |records|
      invariant 0 <= i <= |records|
      invariant Filter(records[..i], genomes, s) == Success(t)
    {
      assert records[..i + 1][..i] == records[..i];
      var v := JudgeRecord(records[i], genomes, s);
      if v.Failure? {
        assert Filter(records[..i + 1], genomes, s) == Failure(v.error);
        FoldFailureStays(records, i + 1, EmptyTally(), FilterStep(genomes, s));
        return Failure(v.error);
      }
      t := Count(t, records[i], v.value);
      assert Filter(records[..i + 1], genomes, s) == Success(t);
      i := i + 1;
    }
    assert records[..i] == records;
    r := Success(t);
  }

  method CleanGenomes(lines: seq<string>, genomes: set<string>, s: Settings) returns (r: Result<Tally, CleanError>)
    ensures r == GenomeRun(lines, genomes, s)
  {
    var streamed := CleanFasta.StreamFasta(lines, true);
    var records := if streamed.Success? then streamed.value else streamed.error.yielded;
    r := FilterRecords(records, genomes, s);
    if r.Success? && streamed.Failure? {
      r := Failure(GenomeHeader(streamed.error.lineIndex));
    }
  }

  // ---------------------------------------------------------------------------
  // Properties of the genome loop

  /** The exact irregular count of every record whose length passed, in order. */
  function MeasuredOf(genomes: set<string>, s: Settings): SeqRecord -> Option<nat> {
    (rec: SeqRecord) =>
      match Judge(rec, genomes, s)
      case Success(Measured(irreg, _)) => Some(irreg)
      case _ => None
  }

  lemma MeasuredOfVerdict(rec: SeqRecord, genomes: set<string>, s: Settings)
    requires Judge(rec, genomes, s).Success?
    ensures var v := Judge(rec, genomes, s).value;
      MeasuredOf(genomes, s)(rec) == if v.Measured? then Some(v.irreg) else None
  {
  }

  /** What a record contributes to the output file, if it is written. */
  function WrittenOf(genomes: set<string>, s: Settings): SeqRecord -> Option<SeqRecord> {
    (rec: SeqRecord) =>
      match Judge(rec, genomes, s)
      case Success(Measured(_, Kept(_))) => Some(rec)
      case _ => None
  }

  /** The number of counts in `counts` that fall in bucket `b`. */
  function InBucket(counts: seq<nat>, b: nat): nat {
    if counts == [] then 0
    else InBucket(counts[..|counts| - 1], b) + (if Bucket(counts[|counts| - 1]) == b then 1 else 0)
  }

  function Sum(s: seq<nat>): nat {
    if s == [] then 0 else s[0] + Sum(s[1..])
  }

  /** One more in one counter is one more in all. */
  lemma {:induction false} SumBump(s: seq<nat>, b: nat)
    requires b < |s|
    ensures Sum(s[b := s[b] + 1]) == Sum(s) + 1
  {
    if b == 0 {
      assert s[b := s[b] + 1][1..] == s[1..];
    } else {
      assert s[b := s[b] + 1][1..] == s[1..][b - 1 := s[b] + 1];
      SumBump(s[1..], b - 1);
    }
  }

  /** The counters agree: the records whose name matched are counted once,
      under exactly one reason when a genome set was supplied, and in exactly
      one histogram bucket when their length passed; without a genome set
      nothing is written; and the genomes kept come from the genome set. */
  predicate Balanced(t: Tally, genomes: set<string>, measured: nat) {
    t.total == t.ignoredLength + measured
    && Sum(t.buckets) == measured
    && t.kept == |t.written|
    && (genomes != {} ==> measured == t.ignoredIrregular + t.ignoredNoProtein + t.kept)
    && (genomes == {} ==> t.ignoredNoProtein == 0 && t.kept == 0)
    && t.keepGenomes <= genomes
  }

  /** The histogram holds, for every count, the number of length-passing
      records with exactly that many irregular characters, and every bucket
      the number of them in its range. */
  ghost predicate Histogram(t: Tally, counts: seq<nat>) {
    HistogramOf(t.irregCount, t.buckets, counts)
  }

  ghost predicate HistogramOf(irregCount: map<nat, nat>, buckets: Buckets, counts: seq<nat>) {
    (forall k :: k in irregCount <==> k in multiset(counts))
    && (forall k :: k in irregCount ==> irregCount[k] == multiset(counts)[k])
    && (forall b :: 0 <= b < 22 ==> buckets[b] == InBucket(counts, b))
  }

  lemma HistogramEmpty()
    ensures Histogram(EmptyTally(), [])
  {
    assert EmptyTally().buckets == seq(22, k => 0);
  }

  /** The genomes kept are those of the records written. */
  ghost predicate KeptWritten(t: Tally) {
    forall g :: g in t.keepGenomes <==> exists k :: 0 <= k < |t.written| && GenomeField(t.written[k].id) == Some(g)
  }

  /** The last record of a loop that did not abort was judged without an abort. */
  lemma FilterLast(records: seq<SeqRecord>, genomes: set<string>, s: Settings)
    requires records != [] && Filter(records, genomes, s).Success?
    ensures var n := |records| - 1;
      Filter(records[..n], genomes, s).Success? && Judge(records[n], genomes, s).Success?
      && Filter(records, genomes, s).value ==
         Tallied(Filter(records[..n], genomes, s).value, records[n], Judge(records[n], genomes, s).value)
  {
  }

  lemma BalancedStep(t: Tally, rec: SeqRecord, genomes: set<string>, s: Settings, measured: nat)
    requires Balanced(t, genomes, measured) && Judge(rec, genomes, s).Success?
    ensures var v := Judge(rec, genomes, s).value;
      Balanced(Tallied(t, rec, v), genomes, measured + if v.Measured? then 1 else 0)
  {
    var v := Judge(rec, genomes, s).value;
    BalancedTallied(t, rec, v, genomes, measured);
  }

  /** A verdict that keeps only genomes of the set, and checks the set
      exactly when it is not empty, keeps the counters balanced. */
  lemma BalancedTallied(t: Tally, rec: SeqRecord, v: Verdict, genomes: set<string>, measured: nat)
    requires Balanced(t, genomes, measured)
    requires v.Measured? && v.outcome.Kept? ==> v.outcome.genomeAcc in genomes
    requires v.Measured? && genomes == {} ==> v.outcome.Unchecked? || v.outcome.IrregularChars?
    requires v.Measured? && genomes != {} ==> !v.outcome.Unchecked?
    ensures Balanced(Tallied(t, rec, v), genomes, measured + if v.Measured? then 1 else 0)
  {
    if v.Measured? {
      SumBump(t.buckets, Bucket(v.irreg));
    }
  }

  lemma CountOnceKeeps(m: map<nat, nat>, counts: seq<nat>, irreg: nat)
    requires forall k :: k in m <==> k in multiset(counts)
    requires forall k :: k in m ==> m[k] == multiset(counts)[k]
    ensures forall k :: k in CountOnce(m, irreg) <==> k in multiset(counts + [irreg])
    ensures forall k :: k in CountOnce(m, irreg) ==> CountOnce(m, irreg)[k] == multiset(counts + [irreg])[k]
  {
    assert multiset(counts + [irreg]) == multiset(counts) + multiset{irreg};
  }

  lemma BucketsKeep(buckets: Buckets, counts: seq<nat>, irreg: nat)
    requires forall b :: 0 <= b < 22 ==> buckets[b] == InBucket(counts, b)
    ensures var b := Bucket(irreg);
      forall j :: 0 <= j < 22 ==> buckets[b := buckets[b] + 1][j] == InBucket(counts + [irreg], j)
  {
    assert (counts + [irreg])[..|counts|] == counts;
  }

  lemma HistogramKeeps(irregCount: map<nat, nat>, buckets: Buckets, counts: seq<nat>, irreg: nat)
    requires HistogramOf(irregCount, buckets, counts)
    ensures HistogramOf(CountOnce(irregCount, irreg), buckets[Bucket(irreg) := buckets[Bucket(irreg)] + 1],
                        counts + [irreg])
  {
    CountOnceKeeps(irregCount, counts, irreg);
    BucketsKeep(buckets, counts, irreg);
  }

  /** What a judged record does to the histogram. */
  lemma TalliedHistogram(t: Tally, rec: SeqRecord, v: Verdict)
    ensures v.Measured? ==>
              Tallied(t, rec, v).irregCount == CountOnce(t.irregCount, v.irreg)
              && Tallied(t, rec, v).buckets == t.buckets[Bucket(v.irreg) := t.buckets[Bucket(v.irreg)] + 1]
    ensures !v.Measured? ==> Tallied(t, rec, v).irregCount == t.irregCount && Tallied(t, rec, v).buckets == t.buckets
  {
  }

  lemma HistogramStep(t: Tally, rec: SeqRecord, v: Verdict, counts: seq<nat>)
    requires Histogram(t, counts)
    ensures Histogram(Tallied(t, rec, v), counts + (if v.Measured? then [v.irreg] else []))
  {
    TalliedHistogram(t, rec, v);
    if v.Measured? {
      HistogramKeeps(t.irregCount, t.buckets, counts, v.irreg);
    } else {
      assert counts + [] == counts;
    }
  }

  lemma KeptWrittenStep(t: Tally, rec: SeqRecord, genomes: set<string>, s: Settings)
    requires KeptWritten(t) && Judge(rec, genomes, s).Success?
    ensures KeptWritten(Tallied(t, rec, Judge(rec, genomes, s).value))
  {
    var v := Judge(rec, genomes, s).value;
    if v.Measured? && v.outcome.Kept? {
      var t' := Tallied(t, rec, v);
      assert t'.written == t.written + [rec];
      assert t'.keepGenomes == t.keepGenomes + {v.outcome.genomeAcc};
      assert forall k :: 0 <= k < |t.written| ==> t'.written[k] == t.written[k];
      assert t'.written[|t.written|] == rec;
    }
  }

  lemma SumZeros(n: nat)
    ensures Sum(seq(n, k => 0)) == 0
  {
    if n > 0 {
      assert seq(n, k => 0)[1..] == seq(n - 1, k => 0);
      SumZeros(n - 1);
    }
  }

  /** Absent an abort, every record is counted once (under `ignored_name`
      or in `total`) and the counters balance. */
  lemma {:induction false} FilterCounts(records: seq<SeqRecord>, genomes: set<string>, s: Settings)
    requires Filter(records, genomes, s).Success?
    ensures var t := Filter(records, genomes, s).value;
      t.total + t.ignoredName == |records|
      && Balanced(t, genomes, |Collect(records, MeasuredOf(genomes, s))|)
  {
    if records == [] {
      SumZeros(22);
    } else {
      var n := |records| - 1;
      FilterLast(records, genomes, s);
      FilterCounts(records[..n], genomes, s);
      var prev := Filter(records[..n], genomes, s).value;
      BalancedStep(prev, records[n], genomes, s, |Collect(records[..n], MeasuredOf(genomes, s))|);
      CollectStep(records, n, MeasuredOf(genomes, s));
      assert records[..n + 1] == records;
    }
  }

  /** Absent an abort, the histogram counts the length-passing records
      exactly, by count and by bucket. */
  lemma {:induction false} FilterHistogram(records: seq<SeqRecord>, genomes: set<string>, s: Settings)
    requires Filter(records, genomes, s).Success?
    ensures Histogram(Filter(records, genomes, s).value, Collect(records, MeasuredOf(genomes, s)))
  {
    if records == [] {
      HistogramEmpty();
    } else {
      var n := |records| - 1;
      FilterLast(records, genomes, s);
      FilterHistogram(records[..n], genomes, s);
      var prev := Filter(records[..n], genomes, s).value;
      var rec := records[n];
      var v := Judge(rec, genomes, s).value;
      var before := Collect(records[..n], MeasuredOf(genomes, s));
      HistogramStep(prev, rec, v, before);
      CollectStep(records, n, MeasuredOf(genomes, s));
      assert records[..n + 1] == records;
      MeasuredOfVerdict(rec, genomes, s);
    }
  }

  /** Absent an abort, the records written are, in order, the records kept,
      unchanged, and the genomes kept are exactly theirs. */
  lemma {:induction false} FilterWritten(records: seq<SeqRecord>, genomes: set<string>, s: Settings)
    requires Filter(records, genomes, s).Success?
    ensures Filter(records, genomes, s).value.written == Collect(records, WrittenOf(genomes, s))
    ensures KeptWritten(Filter(records, genomes, s).value)
  {
    if records != [] {
      var n := |records| - 1;
      FilterLast(records, genomes, s);
      FilterWritten(records[..n], genomes, s);
      KeptWrittenStep(Filter(records[..n], genomes, s).value, records[n], genomes, s);
      CollectStep(records, n, WrittenOf(genomes, s));
      assert records[..n + 1] == records;
    }
  }

  // ---------------------------------------------------------------------------
  // extract_from_protein_fasta_file

  /** One protein record: written when its genome accession was kept; an id
      without '|' crashes the loop. */
  function ExtractOf(keep: set<string>): SeqRecord -> Result<Option<SeqRecord>, ()> {
    (rec: SeqRecord) =>
      match GenomeField(rec.id)
      case None => Failure(())
      case Some(g) => if g in keep then Success(Some(rec)) else Success(None)
  }

  /** The proteins written, as the generator feeds the loop. */
  function Extract(lines: seq<string>, keep: set<string>): Result<seq<SeqRecord>, CleanError> {
    match CleanFasta.Stream(lines, true)
    case Success(records) =>
      (match Gather(records, ExtractOf(keep))
       case Failure(k) => Failure(NoGenomeField(records[k].id))
       case Success(out) => Success(out))
    case Failure(e) =>
      match Gather(e.yielded, ExtractOf(keep))
      case Failure(k) => Failure(NoGenomeField(e.yielded[k].id))
      case Success(_) => Failure(ProteinHeader(e.lineIndex))
  }

  method ExtractRecords(records: seq<SeqRecord>, keep: set<string>) returns (r: Result<seq<SeqRecord>, nat>)
    ensures r == Gather(records, ExtractOf(keep))
  {
    var out: seq<SeqRecord> := [];
    var i := 0;
    assert records[..0] == [];
    while i < |records|
      invariant 0 <= i <= |records|
      invariant Gather(records[..i], ExtractOf(keep)) == Success(out)
    {
      GatherStep(records, i, ExtractOf(keep), out);
      var s := GenomeField(records[i].id);
      if s.None? {
        GatherFailureStays(records, i + 1, ExtractOf(keep));
        return Failure(i);
      }
      if s.value in keep {
        out := out + [records[i]];
      }
      i := i + 1;
    }
    assert records[..i] == records;
    r := Success(out);
  }

  method ExtractFromProteinFastaFile(lines: seq<string>, keep: set<string>) returns (r: Result<seq<SeqRecord>, CleanError>)
    ensures r == Extract(lines, keep)
  {
    var streamed := CleanFasta.StreamFasta(lines, true);
    var records := if streamed.Success? then streamed.value else streamed.error.yielded;
    var out := ExtractRecords(records, keep);
    if out.Failure? {
      return Failure(NoGenomeField(records[out.error].id));
    }
    if streamed.Failure? {
      return Failure(ProteinHeader(streamed.error.lineIndex));
    }
    r := Success(out.value);
  }

  /** The proteins kept from a record list: those whose genome accession is
      in `keep`, in order; the loop crashes exactly when an id has no '|'. */
  lemma ExtractProperties(records: seq<SeqRecord>, keep: set<string>)
    ensures Gather(records, ExtractOf(keep)).Failure? <==>
              exists k :: 0 <= k < |records| && GenomeField(records[k].id).None?
    ensures Gather(records, ExtractOf(keep)).Success? ==>
              forall p :: p in Gather(records, ExtractOf(keep)).value <==>
                p in records && GenomeField(p.id).Some? && GenomeField(p.id).value in keep
  {
    GatherIsCollect(records, ExtractOf(keep));
    if Gather(records, ExtractOf(keep)).Success? {
      var f := Yield(ExtractOf(keep));
      forall p
        ensures p in Collect(records, f) <==> p in records && GenomeField(p.id).Some? && GenomeField(p.id).value in keep
      {
        CollectMembers(records, f, p);
        if p in records {
          var k :| 0 <= k < |records| && records[k] == p;
          assert ExtractOf(keep)(records[k]).Success?;
        }
      }
    }
  }

  // ---------------------------------------------------------------------------
  // The whole run

  /** The protein summary (when a protein file is given), the genome
      counters and the proteins written. */
  datatype Report = Report(proteins: Option<ProteinTally>, genomes: Tally, extracted: seq<SeqRecord>)

  /** `clean_mol_seqs`: the protein file, if given, is read first; the genome
      filter runs against its genome set; the proteins are extracted only
      when that set is non-empty. */
  function Run(genomeLines: seq<string>, proteinLines: Option<seq<string>>, s: Settings, proteinMinLength: int)
    : Result<Report, CleanError>
  {
    var proteins := if proteinLines.Some? then ReadProteins(proteinLines.value, proteinMinLength)
                    else Success(ProteinTally(0, 0, 0, 0, {}, []));
    match proteins
    case Failure(e) => Failure(e)
    case Success(pt) =>
      match GenomeRun(genomeLines, pt.genomes, s)
      case Failure(e) => Failure(e)
      case Success(t) =>
        var summary := if proteinLines.Some? then Some(pt) else None;
        if proteinLines.Some? && pt.genomes != {} then
          match Extract(proteinLines.value, t.keepGenomes)
          case Failure(e) => Failure(e)
          case Success(out) => Success(Report(summary, t, out))
        else Success(Report(summary, t, []))
  }

  method CleanMolSeqs(genomeLines: seq<string>, proteinLines: Option<seq<string>>, s: Settings, proteinMinLength: int)
    returns (r: Result<Report, CleanError>)
    ensures r == Run(genomeLines, proteinLines, s, proteinMinLength)
  {
    var genomes: set<string> := {};
    var summary: Option<ProteinTally> := None;
    if proteinLines.Some? {
      var pr := ReadProteinFastaFile(proteinLines.value, proteinMinLength);
      if pr.Failure? {
        return Failure(pr.error);
      }
      genomes := pr.value.genomes;
      summary := Some(pr.value);
    }
    var t := CleanGenomes(genomeLines, genomes, s);
    if t.Failure? {
      return Failure(t.error);
    }
    if genomes != {} {
      var out := ExtractFromProteinFastaFile(proteinLines.value, t.value.keepGenomes);
      if out.Failure? {
        return Failure(out.error);
      }
      return Success(Report(summary, t.value, out.value));
    }
    r := Success(Report(summary, t.value, []));
  }

  /** A run without an abort writes genomes only when a protein file gave a
      non-empty genome set, and then only genomes whose accession is in it;
      the proteins extracted are exactly the protein records whose genome
      was written. */
  lemma RunProperties(genomeLines: seq<string>, proteinLines: Option<seq<string>>, s: Settings, proteinMinLength: int)
    requires Run(genomeLines, proteinLines, s, proteinMinLength).Success?
    ensures var rep := Run(genomeLines, proteinLines, s, proteinMinLength).value;
      (rep.proteins.None? || rep.proteins.value.genomes == {} ==> rep.genomes.written == [] && rep.extracted == [])
      && (rep.proteins.Some? ==> rep.genomes.keepGenomes <= rep.proteins.value.genomes)
      && forall p :: p in rep.extracted ==> GenomeField(p.id).Some? && GenomeField(p.id).value in rep.genomes.keepGenomes
  {
    var pt := if proteinLines.Some? then ReadProteins(proteinLines.value, proteinMinLength).value
              else ProteinTally(0, 0, 0, 0, {}, []);
    var records := CleanFasta.Stream(genomeLines, true).value;
    FilterCounts(records, pt.genomes, s);
    var t := Filter(records, pt.genomes, s).value;
    if proteinLines.Some? && pt.genomes != {} {
      ExtractProperties(CleanFasta.Stream(proteinLines.value, true).value, t.keepGenomes);
    }
  }
}
