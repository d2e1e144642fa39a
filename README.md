# A verified model of cmzmasek's bioinformatics scripts

This project models, in Dafny, the core of a collection of small Python
scripts for molecular sequences and host/taxonomy tables:

- **FASTA** — `FastaParser` (the line-by-line FASTA reader and its errors),
  `MolseqClass` (the mutable `MolSeq` record with label and wrapped FASTA
  output), `CleanFasta` (the streaming reader and the cleaning filter with its
  counters), `CleanMolSeq` (the protein/genome reader and the length, ratio and
  duplicate filters), `Molseq` (the `MolSeq` class with its residue-class
  counters) and `AminoAcid` (the residue classes).
- **Peptides** — `PeptideMapping` (Hamming distance over windows, the best
  windows of a query in a target) and `TargetMatch` (the match record, its
  ordering and output).
- **GenBank helpers** — `GbFeatureX`, `GbGenomeAccReorg`, `GbMutMap` (the
  regular-expression line parsers and their maps) and `LinExtract` (the
  VERSION/ORGANISM lineage extractor).
- **Tables** — `SeqAnnotate` (annotating sequence ids from a table),
  `MsaRename` (relabelling an alignment from an id map), `BirdAnalyzer` (the
  taxonomy-to-feature map and the host classification counts) and
  `HostAnalyzer` (the host name matching cascade and its counters).
- **Cards** — `TcgCard` (the card record, its string form, equality, hash and
  ordering) and `TcgCardParsers` (the Scryfall, ManaBox and TCGplayer CSV
  readers).

Shared modules: `Results` (Option and Result), `Text` (Python's whitespace
set, `strip`, `lower`, `find`, `split`, collapsing whitespace runs),
`Arith` (small counting facts) and `Folds` (generic left folds over rows with
their step lemmas).

Python's semantics are written out where they matter: `str.find` returning
-1 in a slice, `re.search` with lazy groups for each pattern used, pandas
missing cells, `sys.exit` and uncaught exceptions as failure results. Loops
are methods proved against a specification function over the rows read so
far; the properties the scripts promise are lemmas about those functions.

## Model

| member | source | states |
|---|---|---|
| FastaParser.HeaderLabel | fasta_parser.py:30 | group 1 of the label pattern on a header line is missing exactly when only whitespace follows `>`; otherwise it is non-empty, starts with a non-blank, holds no line break and is a prefix of the text after `>` with its leading blanks dropped |
| FastaParser.HeaderLabelMissingIff | fasta_parser.py:52-57 | on a stripped header line the label lookup fails exactly when the line is `>` alone |
| FastaParser.Clean | fasta_parser.py:60-63 | a sequence line, with gaps removed or with whitespace removed, contains no whitespace |
| FastaParser.StepFailsIff | fasta_parser.py:43-64 | one line stops the reader exactly when it is an empty header, and the error carries that line's index |
| FastaParser.HeaderKeeps | fasta_parser.py:46-57 | a header line closes the pending record only when it has a sequence, keeping every completed record non-empty and the sequence text unchanged |
| FastaParser.SequenceKeeps | fasta_parser.py:59-64 | a sequence line never fails and extends the pending sequence by exactly its cleaned text |
| FastaParser.StepKeeps | fasta_parser.py:43-64 | every successful line preserves the reader invariant: completed records non-empty, and all sequences read so far equal the cleaned sequence lines read so far |
| FastaParser.HeaderReplacesEmptyRecord | fasta_parser.py:56-57 | a header read while no sequence is pending adds no record and replaces the label with its own (group 1 of the label pattern on the stripped line, non-empty): a header with no sequence lines is dropped |
| FastaParser.ScanInvariant | fasta_parser.py:42-64 | after any number of lines the reader invariant holds for the cleaned text of those lines |
| FastaParser.ScanFailsIff | fasta_parser.py:42-64 | the line loop fails exactly when some line is an empty header, and it names the first such line |
| FastaParser.ParseFastaFile | fasta_parser.py:35-69 | the imperative line loop returns exactly the records of the specification `Parse` |
| FastaParser.ParseFailsIff | fasta_parser.py:35-69 | `parse_fasta_file` fails exactly when some line is an empty header, naming the first |
| FastaParser.ParseProperties | fasta_parser.py:35-69 | a successful parse returns at least one record, every record but the last has a sequence, and the sequences concatenated are the cleaned sequence lines in order |
| FastaParser.Parse | fasta_parser.py:35-69 | a successful parse never returns an empty list, since the record under construction is always added at the end |
| FastaParser.HeadersCount | fasta_parser.py:46 | the header lines listed in order are as many as the lines counted as headers |
| FastaParser.TracksOpen | fasta_parser.py:46-57 | a header line opens a new section: the pending record, if it has a sequence, becomes the record of the section it ends, and the new one starts under the header's label |
| FastaParser.TracksAppend | fasta_parser.py:59-64 | any other line extends the last section, and the pending sequence by the line's cleaned text |
| FastaParser.ScanTracks | fasta_parser.py:42-64 | after any lines read without error, the completed records and the pending one are those of the file cut at its header lines |
| FastaParser.ParseIsSections | fasta_parser.py:35-69 | the records are, in order, those of the sections that have a sequence and then the last section: the lines before the first header make a record with an empty label, each header labels the cleaned text of the lines up to the next header, and a section with no sequence is dropped unless it is the last |
| FastaParser.ParseLeadingRecord | fasta_parser.py:38-53 | when there is text before the first header, or no header at all, the first record has an empty label and the cleaned text of the lines before the first header |
| FastaParser.WithSequenceFirst | fasta_parser.py:48-53 | the first section with a sequence gives the first of the records kept |
| FastaParser.SequenceTextUnbreakable | fasta_parser.py:59-63 | the cleaned text holds no whitespace and, with gaps removed, no '-' |
| FastaParser.ParseEmptyFile | fasta_parser.py:66-67 | an empty file gives one record with an empty label and an empty sequence |
| MolseqClass.UnwrapWrap | molseq_class.py:30-34 | removing the inserted line breaks from the wrapped body gives back the sequence |
| MolseqClass.WrapLength | molseq_class.py:30-34 | the wrapped body is the sequence plus one line break per full line |
| MolseqClass.WrapPositions | molseq_class.py:30-34 | residue i lands at position i + i/w, and a line break follows it exactly when i+1 is a multiple of w; the body ends with a break exactly when the length is a multiple of w |
| MolseqClass.MolSeq.constructor | molseq_class.py:10-12 | label and sequence are stored stripped |
| MolseqClass.MolSeq.ToFasta | molseq_class.py:20-35 | with no width the text is `>` label, newline, sequence; otherwise the body field becomes the wrapped sequence and the text is `>` label, newline, body |
| MolseqClass.MolSeq.SetLabel | molseq_class.py:40-41 | the label becomes the new value and nothing else changes |
| MolseqClass.ToFastaRoundTrip | molseq_class.py:20-35 | after a wrapped `to_fasta` the body unwraps to the sequence and has the predicted length |
| Molseq.RegularNaRatio | clean_mol_seq.py:132-135 | the fraction of regular nucleotides of a non-empty sequence lies between 0 and 1 |
| Molseq.Chunks | molseq.py:55-57 | for a sequence with neither whitespace nor '-', where `textwrap` can break only at the width, the wrapped sequence has at least one line |
| Molseq.ChunksCover | molseq.py:55-57 | for a sequence with neither whitespace nor '-', the lines of the wrapped sequence concatenate to the sequence; all but the last hold exactly w characters and the last at most w |
| Molseq.ChunksUnbreakable | molseq.py:55-57 | every wrapped line of a sequence with neither whitespace nor '-' has neither either, and no line break |
| Molseq.FillLines | molseq.py:56 | for a sequence with neither whitespace nor '-', splitting the filled text at line breaks gives exactly the wrapped lines, whose concatenation is the sequence |
| Molseq.FastaWrapped | molseq.py:55-57 | the wrapped FASTA text starts with `>`, the identifier and a line break |
| Molseq.FastaWrappedLines | molseq.py:55-57 | for a sequence with neither whitespace nor '-', the wrapped FASTA text splits into the `>` identifier line followed by the wrapped sequence lines |
| Molseq.RegularNaCountsClass | molseq.py:59-64 | the sum of the eight letter counts is the number of characters that are a, c, g or t in either case |
| Molseq.IrregularAaCountsClass | molseq.py:66-69 | the sum of the seven symbol counts is the number of characters in `_-?Xx*.` |
| Molseq.DisjointCountsBound | molseq.py:59-69 | counts of two disjoint character classes add up to at most the length |
| Molseq.RegularAndIrregularWithinLength | molseq.py:59-69 | regular nucleotide and irregular amino-acid counts together never exceed the length |
| Molseq.RegularNaIgnoresCase | molseq.py:59-64 | lower- or upper-casing the sequence does not change the regular nucleotide count |
| Molseq.MolSeq.constructor | molseq.py:36-38 | identifier and sequence are stored stripped; the length is that of the stripped sequence |
| Molseq.MolSeq.SetSeqId | molseq.py:43-44 | the identifier becomes the argument verbatim (not stripped) and the sequence is unchanged |
| Molseq.MolSeq.RegularNa | molseq.py:59-64 | the regular nucleotide count is at most the length |
| Molseq.MolSeq.IrregularAa | molseq.py:66-69 | the irregular count plus the regular count is at most the length |
| Molseq.ToFastaLines | molseq.py:52-53 | the FASTA text splits into exactly the `>` identifier line and the sequence line |
| AminoAcid.Code | amino_acid.py:27 | an argument names a one-letter code exactly when it is one character long, and the code is its upper-case form |
| AminoAcid.ClassesByCode | amino_acid.py:26-43 | each class test holds exactly for one-character arguments whose upper-case code is in that class's list |
| AminoAcid.HydrophobicNonAromaticExactly | amino_acid.py:26-27 | hydrophobic non-aromatic holds exactly for A, V, I, L and M in either case |
| AminoAcid.HydrophobicAromaticExactly | amino_acid.py:30-31 | hydrophobic aromatic holds exactly for F, Y and W in either case |
| AminoAcid.ClassesIgnoreCase | amino_acid.py:26-43 | upper- or lower-casing the argument first changes no class test |
| AminoAcid.AtMostOneClass | amino_acid.py:26-43 | no argument is in two classes |
| AminoAcid.NoClass | amino_acid.py:26-43 | arguments longer or shorter than one character, and letters such as G, P and C, are in no class |
| PeptideMapping.MismatchesBound | peptide_mapping.py:64 | the number of differing positions is at most the length |
| PeptideMapping.MismatchesZeroIff | peptide_mapping.py:64 | two equal-length strings differ nowhere exactly when they are equal |
| PeptideMapping.MismatchesSymmetric | peptide_mapping.py:64 | the mismatch count does not depend on argument order |
| PeptideMapping.HammingDistance | peptide_mapping.py:60-64 | fails with the length error exactly when the lengths differ; otherwise the distance is at most the length and is 0 exactly when the strings are equal |
| PeptideMapping.HammingDistanceSymmetric | peptide_mapping.py:60-64 | the distance, or the error, is the same with the arguments swapped |
| PeptideMapping.InvertedNormalizedHammingDistance | peptide_mapping.py:67-68 | fails exactly when the lengths differ or the first string is empty; otherwise lies between 0 and 1 and is 1 exactly when the strings are equal |
| PeptideMapping.MinDistIsMinimum | peptide_mapping.py:43-50 | the best score over the first n windows is no larger than any of their distances and is the distance of one of them |
| PeptideMapping.MinDistBound | peptide_mapping.py:40 | the best score never exceeds the query length, so it always improves on the initial `len(query) + 1` |
| PeptideMapping.TiesBelowMinimum | peptide_mapping.py:47-51 | no window ties a score below the minimum |
| PeptideMapping.TiesEmpty | peptide_mapping.py:47-51 | no window is kept for a score no window reaches |
| PeptideMapping.TiesSound | peptide_mapping.py:47-51 | every kept window has the searched distance and its own start, end and text |
| PeptideMapping.TiesComplete | peptide_mapping.py:47-51 | every window with the searched distance is kept |
| PeptideMapping.TiesAscending | peptide_mapping.py:43-51 | kept windows are in strictly ascending start order |
| PeptideMapping.OptimalProperties | peptide_mapping.py:39-53 | the result is non-empty; each entry is a well-placed window of minimum distance; every minimum-distance window is present; entries ascend |
| PeptideMapping.Map | peptide_mapping.py:39-53 | the search loop returns nothing exactly when the target is shorter than the query, and otherwise exactly the optimal windows (corrected search, see Findings) |
| PeptideMapping.QueryTwiceInTarget | peptide_mapping.py:76 | "query" in "queryquery" gives exactly the two windows at offsets 0 and 5, both at distance 0 |
| PeptideMapping.MapAsWritten | peptide_mapping.py:51 | the search as written fails with a constructor-arity error exactly when at least one window exists, and otherwise returns None |
| PeptideMapping.MapAsWrittenFailsOnExample | peptide_mapping.py:76 | on "query" in "queryquery" the search as written fails, where two windows were evidently intended |
| TargetMatch.New | target_match.py:30-49 | construction succeeds exactly for valid geometry and then stores the arguments; start-not-before-end is reported first and the sequence-length mismatch second |
| TargetMatch.LengthOfValid | target_match.py:75-76 | a valid match has `calc_length` equal to both sequence lengths and at least 2 |
| TargetMatch.NoSingleResidueMatch | target_match.py:32-33 | a match whose start equals its end is always refused |
| TargetMatch.GetQuerySequence | target_match.py:72-73 | the query-sequence getter returns the stored target sequence |
| TargetMatch.LessIsStrictOrderOnScores | target_match.py:91-92 | `<` is irreflexive and transitive, and two matches are incomparable exactly when their scores are equal |
| TargetMatch.ToFastaLines | target_match.py:78-81 | the FASTA text splits into the coordinate and distance header line and the target sequence |
| TargetMatch.DemonstrationMatches | target_match.py:108-119 | the demonstration match is accepted with a distance larger than its length, its query getter shows the target text, and it orders before the second match |
| TargetMatch.HitsMakeValidMatches | peptide_mapping.py:51 | every window the search keeps makes a valid match of the query's length when the query has at least two residues, and is refused otherwise |
| CleanFasta.StreamFasta | clean_fasta.py:42-60 | the imperative generator loop yields exactly the records of the specification `Stream` |
| CleanFasta.StreamStepFailsIff | clean_fasta.py:46-58 | one line stops the generator exactly when it is an empty header; the error names that line and keeps what was yielded before it |
| CleanFasta.StreamFailsIff | clean_fasta.py:42-60 | the generator stops exactly when some line is an empty header, at the first one |
| CleanFasta.CloseKeeps | clean_fasta.py:59-60 | at the end one record per header has been yielded, each with a non-empty stripped identifier, and their sequences are the text after the first header |
| CleanFasta.OpenKeeps | clean_fasta.py:48-52 | a header yields the pending record, if any, and opens a new one with an empty sequence |
| CleanFasta.AppendKeeps | clean_fasta.py:53-58 | a sequence line extends the pending sequence by its cleaned text |
| CleanFasta.StreamStepKeeps | clean_fasta.py:46-58 | every successful line preserves the generator invariant, counting headers and splitting sequence text into before and after the first header |
| CleanFasta.StreamScanInvariant | clean_fasta.py:45-58 | after all lines the generator invariant holds for the header count and the cleaned text |
| CleanFasta.NoTextBeforeHeader | clean_fasta.py:49 | with no header line there is no sequence text after a header |
| CleanFasta.StreamProperties | clean_fasta.py:42-60 | one record per header line, each with a non-empty identifier; the sequences concatenated are the cleaned sequence lines after the first header, so earlier lines are discarded |
| CleanFasta.Stream | clean_fasta.py:42-60 | an empty input yields no record |
| CleanFasta.StepKinds | clean_fasta.py:46-58 | a blank line changes nothing; a header line with a label yields the pending record and opens one under that label with an empty sequence; any other line extends the pending sequence by its cleaned text |
| CleanFasta.BlankKeeps | clean_fasta.py:47 | a blank line keeps the generator invariant |
| CleanFasta.HeaderKeeps | clean_fasta.py:48-52 | a header line with a label keeps the generator invariant, counting one more header |
| CleanFasta.SequenceKeeps | clean_fasta.py:53-58 | a sequence line keeps the generator invariant, its cleaned text joining the text after the first header once there is one |
| CleanFasta.StreamTracksClose | clean_fasta.py:59-60 | at the end the records yielded are those of the sections after the first, the pending one included |
| CleanFasta.StreamTracksOpen | clean_fasta.py:48-52 | a header line opens a new section: the pending record is yielded and a new one starts under the header's label |
| CleanFasta.StreamTracksAppend | clean_fasta.py:53-58 | any other line extends the last section and the pending sequence by the line's cleaned text |
| CleanFasta.StreamTracksSnoc | clean_fasta.py:45-58 | one line that does not stop the generator keeps its state in step with the file cut at its header lines |
| CleanFasta.StreamScanTracks | clean_fasta.py:45-58 | after all lines read without error the state is that of the file cut at its header lines |
| CleanFasta.StreamIsSections | clean_fasta.py:42-60 | the generator yields one record per header, in order, from the sections the headers open; the lines before the first header are dropped |
| CleanFasta.StreamRecord | clean_fasta.py:42-60 | record k carries the label of the k-th header line and the cleaned text of the lines between that header and the next one (or the end); a header with no sequence lines gives an empty sequence |
| CleanFasta.HeaderSectionRecord | clean_fasta.py:50-52 | a section opened by a header gives the record of the header's stripped label and the cleaned text of its lines |
| CleanFasta.StreamUnbreakable | clean_fasta.py:54-55 | with gaps removed every yielded sequence holds neither whitespace nor '-' |
| CleanFasta.Judge | clean_fasta.py:84-116 | each verdict exactly when its test is the first to decide: nameless when the stripped identifier is empty; digits when named and the sequence has a digit; too short below the minimum length; too long above a maximum that exceeds the minimum; the division fails on an empty sequence that passes both length tests; irregular when the valid-character ratio is below the minimum; identical when the record passes every test but its collapsed name is already taken with unique names on; passed, under its collapsed name, in the remaining case |
| CleanFasta.ValidChars | clean_fasta.py:95-98 | the number of valid characters never exceeds the length |
| CleanFasta.CleanMolSeqs | clean_fasta.py:63-131 | the imperative run returns exactly `Run`: refused when the output exists, otherwise the tally of the yielded records, with a division by zero among them winning over a malformed header |
| CleanFasta.FilterEmpty | clean_fasta.py:72-80 | the loop over no records leaves every counter at zero |
| CleanFasta.FilterNext | clean_fasta.py:82-116 | the loop over one more record is one more judging step |
| CleanFasta.JudgeRecord | clean_fasta.py:84-116 | the tests of one record, in the order of the loop body, give exactly `Judge` |
| CleanFasta.FilterRecords | clean_fasta.py:82-116 | the imperative record loop returns exactly `Filter` |
| CleanFasta.JudgePassed | clean_fasta.py:101-110 | a record passes under its collapsed name exactly when it is named, has no digit, its length is within bounds, its valid-character ratio reaches the minimum and, with unique names, the name is new |
| CleanFasta.WriteKeeps | clean_fasta.py:103-110 | writing an acceptable record under a new name keeps the tally invariant |
| CleanFasta.TalliedKeeps | clean_fasta.py:83-116 | counting a record under any reason keeps the invariant and adds one to the total |
| CleanFasta.CountKeeps | clean_fasta.py:83-116 | one successful judging step keeps the invariant and adds one to the total |
| CleanFasta.FilterInvariant | clean_fasta.py:82-116 | after the loop the total is the number of records and the tally invariant holds |
| CleanFasta.RunProperties | clean_fasta.py:63-131 | every header's record is counted once under exactly one reason; the records written pass every test; with unique names no name is written twice; the accepted names are exactly those written; nothing is counted as nameless |
| CleanFasta.NamedRecordsNeverNameless | clean_fasta.py:115-116 | records with a non-empty stripped identifier are never counted as nameless, so the empty-id branch is dead |
| CleanFasta.NamedRecordNotNameless | clean_fasta.py:84-85 | one record with a non-empty stripped identifier leaves the nameless counter unchanged |
| CleanMolSeq.GenomeField | clean_mol_seq.py:189-190 | the genome accession exists exactly when the id has at least two '\|'-separated fields, and is the second field |
| CleanMolSeq.JudgeProtein | clean_mol_seq.py:43-59 | a protein record is kept exactly when it is long enough, has no irregular character and its id has more than two fields, giving fields 1 and 2; too short and irregular are reported in that order |
| CleanMolSeq.ReadProteinRecords | clean_mol_seq.py:41-59 | the imperative protein loop returns exactly `ProteinScan` |
| CleanMolSeq.ReadProteinFastaFile | clean_mol_seq.py:33-69 | the imperative `read_protein_fasta_file` returns exactly `ReadProteins`: the generator's error, or the protein tally |
| CleanMolSeq.ProteinProperties | clean_mol_seq.py:33-69 | every protein record is counted once under exactly one reason; the accession pairs written are those of the kept records in order; the returned genome set is exactly their genome accessions |
| CleanMolSeq.Bucket | clean_mol_seq.py:142-185 | the histogram counter chosen is one of the 22 |
| CleanMolSeq.BucketOf | clean_mol_seq.py:142-185 | the imperative elif chain picks exactly the counter `Bucket` |
| CleanMolSeq.BucketRange | clean_mol_seq.py:142-185 | counter 0 holds exactly the records with no irregular character, counter j (1 to 20) those with a count in [50(j-1), 50j) other than 0, and the last counter those with 1000 or more |
| CleanMolSeq.Judge | clean_mol_seq.py:129-204 | a genome record is ignored by name exactly when no SARS-CoV-2 marker is in its lower-cased id; a matching empty sequence aborts on the division; it is ignored by length exactly when it is shorter than the minimum; otherwise it is measured with its irregular count, counted as irregular exactly when its ratio is below the minimum, left unchecked exactly when the ratio passes but there is no genome set, and kept only with a genome accession in the set; with the length and ratio passed and a non-empty genome set, a missing genome accession aborts exactly then, and the record is kept exactly when its accession is in the set and counted as without protein exactly when it is not; the only aborts are the division and the missing accession |
| CleanMolSeq.JudgeRecord | clean_mol_seq.py:129-204 | the tests of one genome record in loop-body order give exactly `Judge` |
| CleanMolSeq.Count | clean_mol_seq.py:131-201 | the counter, histogram and output updates of one judged record are exactly `Tallied` |
| CleanMolSeq.FilterRecords | clean_mol_seq.py:128-204 | the imperative genome loop returns exactly `Filter` |
| CleanMolSeq.CleanGenomes | clean_mol_seq.py:95-204 | the genome loop fed by the generator returns exactly `GenomeRun`, with an abort among the records yielded before a malformed header winning |
| CleanMolSeq.FilterLast | clean_mol_seq.py:128-204 | a loop that did not abort judged its last record without an abort, and its tally is that record's step on the earlier tally |
| CleanMolSeq.BalancedStep | clean_mol_seq.py:131-201 | one judged record keeps the counters balanced, adding one measured record exactly when its length passed |
| CleanMolSeq.CountOnceKeeps | clean_mol_seq.py:137-140 | the exact-count dictionary stays the multiset of the measured counts after one more count |
| CleanMolSeq.BucketsKeep | clean_mol_seq.py:142-185 | the range counters stay the number of measured counts in each range after one more count |
| CleanMolSeq.HistogramKeeps | clean_mol_seq.py:137-185 | the exact-count dictionary and the range counters together stay exact after one more count |
| CleanMolSeq.TalliedHistogram | clean_mol_seq.py:136-201 | only a record whose length passed touches the histogram, and then by its irregular count |
| CleanMolSeq.HistogramStep | clean_mol_seq.py:136-201 | one judged record keeps the histogram exact for the measured counts so far |
| CleanMolSeq.KeptWrittenStep | clean_mol_seq.py:194-197 | one judged record keeps the kept genome accessions equal to those of the records written |
| CleanMolSeq.FilterCounts | clean_mol_seq.py:128-204 | without an abort every record is counted once, by name or in the total; the total splits into too-short and measured; the histogram sums to the measured records; with a genome set the measured split into irregular, no-protein and kept; without one nothing is kept |
| CleanMolSeq.FilterHistogram | clean_mol_seq.py:137-185 | without an abort the exact-count dictionary and the 22 range counters count the measured records exactly |
| CleanMolSeq.FilterWritten | clean_mol_seq.py:194-197 | without an abort the genomes written are the kept records in order and unchanged, and the kept accessions are exactly theirs |
| CleanMolSeq.ExtractRecords | clean_mol_seq.py:76-83 | the imperative protein extraction loop returns exactly the gather of `ExtractOf` |
| CleanMolSeq.ExtractFromProteinFastaFile | clean_mol_seq.py:72-86 | the imperative `extract_from_protein_fasta_file` returns exactly `Extract` |
| CleanMolSeq.ExtractProperties | clean_mol_seq.py:76-83 | extraction crashes exactly when some protein id has no '\|'; otherwise the proteins written are exactly those whose genome accession is kept |
| CleanMolSeq.CleanMolSeqs | clean_mol_seq.py:89-242 | the imperative `clean_mol_seqs` returns exactly `Run`: protein file first, then the genome filter against its genome set, then the extraction when that set is non-empty |
| CleanMolSeq.RunProperties | clean_mol_seq.py:89-242 | a run writes genomes only when a protein file gave a non-empty genome set, keeps only accessions from it, and extracts only proteins of kept genomes |
| SeqAnnotate.ReadAnnotations | seq_annotate.py:38-42 | the imperative table loop returns exactly `Table` |
| SeqAnnotate.TableIsAssign | seq_annotate.py:38-42 | reading the table fails exactly when some row lacks the accession column, naming the first such row; otherwise the table is the rows keyed by their accession |
| SeqAnnotate.LaterRowWins | seq_annotate.py:41-42 | an accession is in the table exactly when some row carries it, and it maps to the last such row |
| SeqAnnotate.AccessionFrom | seq_annotate.py:12 | the accession pattern matches at or after a position exactly when some "accn\|" there is followed by a non-blank; the group is then non-empty, blank-free and the word after that "accn\|" |
| SeqAnnotate.NewIdColumns | seq_annotate.py:73-75 | when no id column holds a '\|', the new id splits back into exactly the eight annotation columns in order |
| SeqAnnotate.Judge | seq_annotate.py:53-86 | an empty sequence aborts on the division; too short and too irregular are exclusive and tested in that order; a missing accession or annotation aborts; for a long, regular record whose annotation exists, column 20 other than "L" gives wrong segment, "L" with the new id's columns gives kept under the new id, and "L" without them aborts on the short annotation; wrong segment and kept occur only then |
| SeqAnnotate.AnnotateRun | seq_annotate.py:36-96 | the imperative `run` returns exactly `Run`: the table first, then the records as the generator yields them |
| SeqAnnotate.JudgeRecord | seq_annotate.py:53-86 | the tests of one record in loop-body order give exactly `Judge` |
| SeqAnnotate.FilterNext | seq_annotate.py:52-86 | the loop over one more record is one more judging step |
| SeqAnnotate.FilterRecords | seq_annotate.py:52-86 | the imperative record loop returns exactly `Filter` |
| SeqAnnotate.FilterProperties | seq_annotate.py:52-86 | without an abort every record is counted once under exactly one reason, and the records written are the kept records in order, relabelled, sequences unchanged |
| SeqAnnotate.FilterFailsIff | seq_annotate.py:52-86 | the loop aborts exactly when some record's judgement does, with the first such record's error |
| SeqAnnotate.MissingAnnotationAborts | seq_annotate.py:80-82 | a long, regular record whose accession has no row aborts the whole run wherever it is |
| SeqAnnotate.RunProperties | seq_annotate.py:36-96 | without an abort the run counts one record per header line under exactly one reason and writes exactly the kept records, relabelled, in order; every sequence written holds neither whitespace nor '-', so its wrapping is the one modelled |
| SeqAnnotate.KeptKeepsResidues | seq_annotate.py:73-76 | a kept record is written with the sequence it was read with |
| MsaRename.ReadIdMapStep | msa_rename.py:25-37 | reading one more map line is one more map step |
| MsaRename.ReadMapLine | msa_rename.py:26-37 | one pass of the map loop gives exactly `MapStep`: a known id aborts, a missing tab aborts, otherwise the id is mapped and counted |
| MsaRename.BuildIdMap | msa_rename.py:22-38 | the imperative map-reading loop returns exactly `ReadIdMap` |
| MsaRename.Records | msa_rename.py:43-47 | the label and sequence of each object, one per object, in order |
| MsaRename.RelabelOne | msa_rename.py:47-49 | a mapped object gets the mapped label, keeps its sequence, and its entry is written under the new label |
| MsaRename.RelabelAll | msa_rename.py:41-51 | the output loop writes exactly `Relabel` of the objects' original labels; no sequence changes; on success every object carries the name mapped from its original label |
| MsaRename.MapLine | msa_rename.py:29-37 | a line repeating an id aborts with that id; a line with a new id is added and counted, and reported as a duplicate name exactly when its name is already a value |
| MsaRename.Rows | msa_rename.py:27 | one field list per map line, each the tab split of the stripped line |
| MsaRename.MapsRowsStep | msa_rename.py:36 | adding a new id keeps every earlier row's id mapped to its name |
| MsaRename.DistinctIdsStep | msa_rename.py:29-31 | a row whose id is new keeps the ids of the rows distinct |
| MsaRename.IdsFromRowsStep | msa_rename.py:36 | every mapped id still comes from some row |
| MsaRename.RowStepKeeps | msa_rename.py:26-37 | one successful row keeps the map summary: counter equals the number of ids and of rows, rows mapped, ids distinct and from rows |
| MsaRename.ReadIdMapProperties | msa_rename.py:22-38 | after a complete read the counter is the number of ids, every line's id maps to its name, line ids are distinct, and every id comes from a line |
| MsaRename.RepeatedIdAborts | msa_rename.py:29-31 | a map in which two lines share an id cannot be read |
| MsaRename.RelabelProperties | msa_rename.py:43-50 | relabelling fails exactly when some label has no mapping, naming the first; otherwise one entry per sequence in order, under the mapped name with the sequence unchanged |
| MsaRename.EntryKeepsSequence | msa_rename.py:48 | an entry starts with `>`, the new name and a line break and ends with a line break, and removing the line breaks between them gives back the sequence |
| LinExtract.SemicolonsToTabs | lin_extract.py:24 | the result contains no semicolon |
| LinExtract.SemicolonsToTabsIsFieldJoin | lin_extract.py:24 | replacing each `;` and the whitespace after it by a tab equals splitting at `;`, removing the leading whitespace of every field after the first and joining with tabs |
| LinExtract.NoSemicolonUnchanged | lin_extract.py:24 | a text without semicolons is left unchanged |
| LinExtract.ScanStep | lin_extract.py:21-41 | reading one more line is one more loop step |
| LinExtract.ProcessLine | lin_extract.py:22-41 | one pass of the loop body gives exactly `Step` |
| LinExtract.ExtractLines | lin_extract.py:11-43 | the imperative `extract` returns exactly `Extract`: refused when the output exists, otherwise the text written |
| LinExtract.VersionLine | lin_extract.py:33-36 | outside an organism block a `VERSION` line writes its second word and a tab, and fails exactly when it has fewer than two words |
| LinExtract.OrganismLine | lin_extract.py:37-41 | an `  ORGANISM` line outside a block writes the trimmed text from column 12 and a tab, and opens the block |
| LinExtract.OrganismBlock | lin_extract.py:22-32 | inside the block a line never fails; an indented line is written with semicolons turned into tabs, and one ending in `.` loses the dot, ends the output line and closes the block; any other line only closes the block |
| LinExtract.ExtractFailsOnlyOnVersion | lin_extract.py:11-43 | an existing output file wins; otherwise the run fails only at a `VERSION` line outside a block with fewer than two words |
| LinExtract.ScanFailure | lin_extract.py:21-41 | a failed scan always names a `VERSION` line with fewer than two words |
| GbFeatureX.DbTag | gb_feature_x.py:3 | a `gb\|` or `dbj\|` tag, in any case, ends after its start and within the line |
| GbFeatureX.LastBar | gb_feature_x.py:3 | the greedy group ends at the last '\|' after the first character: that position holds a bar, no bar follows it, and without one there is no bar at all |
| GbFeatureX.BarredGroup | gb_feature_x.py:3-5 | a captured accession is non-empty and holds no line break |
| GbFeatureX.RunStep | gb_feature_x.py:14-36 | reading one more line is one more loop step |
| GbFeatureX.Parse | gb_feature_x.py:8-38 | the imperative loop writes exactly the pairs of `Run`, and the counter is their number |
| GbFeatureX.StepEmits | gb_feature_x.py:17-36 | a line writes at most one pair, never removes one, writes only when a feature is pending, the target was seen and the line is no header, and then clears both; only a header sets a feature |
| GbFeatureX.AtMostOnePairPerHeader | gb_feature_x.py:14-36 | pairs written plus a pending feature never outnumber the header lines read |
| GbFeatureX.NothingBeforeHeader | gb_feature_x.py:22 | before the first header no state changes and nothing is written |
| GbFeatureX.HeaderResets | gb_feature_x.py:17-20 | a header line sets the feature to its accession, clears the target flag and writes nothing, whatever came before |
| GbGenomeAccReorg.MatchId | gb_genome_acc_reorg.py:3 | a match captures a non-empty id without line breaks, and the line starts with the marker followed by it |
| GbGenomeAccReorg.RunStep | gb_genome_acc_reorg.py:10-22 | reading one more line is one more loop step |
| GbGenomeAccReorg.Parse | gb_genome_acc_reorg.py:6-24 | the imperative loop writes exactly the layout of the qualifying ids, and the counter equals `CounterAfter` of their number, below `max` when `max` is positive |
| GbGenomeAccReorg.RunIsLayout | gb_genome_acc_reorg.py:10-22 | the output is the ids in input order, each followed by its separator, and the counter stays in 0 to max-1 when max is positive |
| GbGenomeAccReorg.CounterStep | gb_genome_acc_reorg.py:16-22 | one more id increments the counter, or resets it to zero exactly when it reaches `max`, and writes three line breaks exactly then, a comma otherwise |
| GbGenomeAccReorg.GroupsHoldAtMostMax | gb_genome_acc_reorg.py:18-20 | any `max` consecutive ids include one followed by the three line breaks |
| GbGenomeAccReorg.NoGroupsWithoutPositiveMax | gb_genome_acc_reorg.py:18-22 | with a group size below 1 every id is followed by `, ` |
| GbGenomeAccReorg.LayoutOfAppend | gb_genome_acc_reorg.py:17-22 | one more id appends exactly that id and its separator |
| GbGenomeAccReorg.IdsSkipLine | gb_genome_acc_reorg.py:12-15 | a line that does not match, or whose id is `Isolate`, adds nothing |
| GbGenomeAccReorg.MatchMarkerLine | gb_genome_acc_reorg.py:11-14 | a marker line with a blank-free id is unchanged by stripping and captures that id |
| GbGenomeAccReorg.MarkerLine | gb_genome_acc_reorg.py:11-16 | such a line contributes its id when the id is not `Isolate` |
| GbGenomeAccReorg.IsolateLineSkipped | gb_genome_acc_reorg.py:15 | the line `[ncbi]:Isolate` contributes nothing |
| GbMutMap.LazyEnd | gb_mut_map.py:3 | a lazy group ends at a version suffix, with no line break before it |
| GbMutMap.Tail | gb_mut_map.py:3 | the second group lies after the first version and is followed by a version suffix |
| GbMutMap.Rest | gb_mut_map.py:3 | the rest of the pattern places the second group after the first group |
| GbMutMap.FirstFrom | gb_mut_map.py:3 | the first group ends before the second group starts and both lie within the line |
| GbMutMap.MatchPair | gb_mut_map.py:3 | a match gives non-empty genome and protein accessions |
| GbMutMap.ReadMap | gb_mut_map.py:8-13 | the imperative map loop returns exactly `ProteinToGenome` |
| GbMutMap.MapIsLastMention | gb_mut_map.py:8-13 | a protein is mapped exactly when some matching map line names it, to the genome of the last such line |
| GbMutMap.WriteMutations | gb_mut_map.py:16-28 | the imperative mutation loop writes exactly `Join`, and the counter is the number of lines written |
| GbMutMap.Parse | gb_mut_map.py:6-30 | `parse` writes exactly `Join` of the map read from the first file, counted |
| GbMutMap.JoinProperties | gb_mut_map.py:16-28 | rows are handled independently and in order, at most one line per row, and a line is written exactly when some row produces it |
| GbMutMap.OutputLineIff | gb_mut_map.py:18-26 | a row produces a line exactly when its stripped form has more than six tab fields and the first is mapped; the line is the genome, a tab and the seventh field |
| GbMutMap.LazyEndExact | gb_mut_map.py:3 | a lazy group over characters that are neither `.` nor line breaks ends at the first version suffix |
| GbMutMap.FirstFromSkips | gb_mut_map.py:3 | no shorter first group works while no `.` follows any of its possible ends |
| GbMutMap.WellFormedMapLine | gb_mut_map.py:11-13 | a line `GENOME.n<blanks>PROTEIN.m` maps PROTEIN to GENOME |
| GbMutMap.MapLineShape | gb_mut_map.py:3 | the parts of a well-formed map line sit at the predicted positions |
| GbMutMap.TailFirst | gb_mut_map.py:3 | the second group starts right after the blanks when its lazy end exists |
| GbMutMap.RestIs | gb_mut_map.py:3 | after a first version with digits and blanks, the rest of the pattern is the tail match |
| GbMutMap.FirstAt | gb_mut_map.py:3 | the first group is the least working end, and the match then gives the two groups |
| TcgCard.SetComparator | tcg_card.py:4-5 | `set_comparator` leaves the class comparator as it was, since it binds only a local variable |
| TcgCard.New | tcg_card.py:19-36 | every field is the cleaned argument; set code upper-cased; language, rarity, finish, art type, URI, Scryfall id and release date lower-cased; so every constructed card meets the case conventions |
| TcgCard.Str | tcg_card.py:86-92 | the text starts with name, set and number; a finish adds exactly ` [finish]` right after them; an art type ends the text with exactly ` [art type]`; the length counts exactly these parts; with neither finish nor art type nothing is added |
| TcgCard.EqualsIsEquivalence | tcg_card.py:123-131 | equality is reflexive, symmetric and transitive, a non-card is never equal, and `!=` is its negation |
| TcgCard.Repr | tcg_card.py:94-121 | under every comparator the representation starts with `Card::`, the lower-cased game and `::` |
| TcgCard.Equals | tcg_card.py:123-128 | a card equals itself, and never something that is not a card |
| TcgCard.NotEquals | tcg_card.py:130-131 | a card is never unequal to itself, and always unequal to something that is not a card |
| TcgCard.Less | tcg_card.py:136-137 | a card is never less than one with the same name and set |
| TcgCard.EqualCardsHashEqually | tcg_card.py:133-134 | equal cards have equal hashes, whatever the string hash |
| TcgCard.FirstColon | tcg_card.py:119-121 | the first colon of a `::`-joined key ends its first part when that part has no colon |
| TcgCard.SplitAtSeparator | tcg_card.py:119-121 | two `::`-joined strings whose first parts have no colon are equal only part by part |
| TcgCard.EqualsIff | tcg_card.py:118-128 | with no colon in game, name and set code, two cards are equal exactly when game, name and number agree ignoring case and the set codes agree upper-cased |
| TcgCard.SeparatorInFieldCollides | tcg_card.py:118-128 | a `::` inside a field makes two cards with different names equal |
| TcgCard.LessIsStrictOrder | tcg_card.py:136-137 | `<` is irreflexive, transitive and asymmetric |
| TcgCard.EqualCardsCanBeOrdered | tcg_card.py:123-137 | two equal cards can still be ordered, because the order sees the name's case |
| TcgCard.UnequalCardsCanBeUnordered | tcg_card.py:123-137 | two unequal cards can be unordered, because the order ignores the number |
| TcgCard.KeyOfNew | tcg_card.py:19-36 | a constructed card's key holds the lower-cased cleaned game, name and number and the set code as the constructor stored it |
| TcgCardParsers.TypeAndSubtype | tcg_card_parsers.py:37-42 | without the em-dash separator the field is the type and the subtype is empty; with it the type is the text before the first separator, the subtype the text after it up to the second separator or the end, and neither contains a separator |
| TcgCardParsers.SecondPart | tcg_card_parsers.py:38-40 | the second part of a split is the text after the first separator up to the next separator or the end, and holds no separator |
| TcgCardParsers.PrefixBeforeFind | tcg_card_parsers.py:38-39 | the text before the first occurrence of a separator does not contain it |
| TcgCardParsers.ParseRows | tcg_card_parsers.py:15-49 | the shared imperative row loop returns exactly the gather of the row function: the cards of the rows not skipped, or the first failing row |
| TcgCardParsers.ParseScryfallSpreadsheet | tcg_card_parsers.py:9-49 | `parse_scryfall_spreadsheet` returns exactly the gather of the Scryfall row function |
| TcgCardParsers.ParseManaboxExport | tcg_card_parsers.py:51-87 | `parse_manabox_export` returns exactly the gather of the Manabox row function |
| TcgCardParsers.TcgPlayerArtType | tcg_card_parsers.py:111-123 | the six tests in a row leave exactly the art type `ArtTypeOf` |
| TcgCardParsers.TcgPlayerCard | tcg_card_parsers.py:95-136 | one TCGplayer row, with finish, art type and name reassigned in place, gives exactly `TcgPlayerRow` |
| TcgCardParsers.ParseTcgPlayerCollection | tcg_card_parsers.py:89-138 | `parse_tcg_player_collection` returns exactly the gather of the TCGplayer row function |
| TcgCardParsers.ParsersYieldInRowOrder | tcg_card_parsers.py:15-47 | a parser fails exactly when some row is too short; otherwise it yields one card per row not skipped, in row order |
| TcgCardParsers.ScryfallRow | tcg_card_parsers.py:15-47 | a row fails exactly when it is empty, or shorter than 17 cells and not headed `section`; it is skipped exactly when headed `section`; a card read is normalised |
| TcgCardParsers.ManaboxRow | tcg_card_parsers.py:56-85 | a row fails exactly when it is empty, or shorter than 16 cells and not headed `BinderName`; it is skipped exactly when headed `BinderName`; a card read is normalised |
| TcgCardParsers.TcgPlayerRow | tcg_card_parsers.py:94-136 | a row fails exactly when shorter than 4 cells; no row is skipped; a card read is normalised |
| TcgCardParsers.CutName | tcg_card_parsers.py:127-131 | with no foil and no art type the name is kept; a foil name with `- [` becomes the text before the first `- [` less the whitespace around it; a name with an art type and a '(' becomes the text before its first '(' (of the foil cut when foil) less the whitespace around it, with no '('; it is never longer than the name |
| TcgCardParsers.FoilCut | tcg_card_parsers.py:129 | when `- [` occurs, the cut is the text before its first occurrence with only whitespace removed around it, and has no whitespace at either end |
| TcgCardParsers.ArtCut | tcg_card_parsers.py:131 | the cut has no '('; when a '(' occurs, it is the text before the first one with only whitespace removed around it |
| TcgCardParsers.ScryfallRows | tcg_card_parsers.py:15-47 | rows headed `section` are skipped; others fail exactly when shorter than 17 cells; `nonfoil` in any case becomes an empty finish; game, name and set code come from their columns |
| TcgCardParsers.ManaboxFinishIgnoresFoil | tcg_card_parsers.py:57-84 | rows headed `BinderName` are skipped, and the card does not depend on the foil column: its finish is always empty |
| TcgCardParsers.LastMarkerWins | tcg_card_parsers.py:112-123 | the art type is empty exactly when no marker occurs, and otherwise is the one named by the last marker in the list that occurs |
| TcgCardParsers.TcgPlayerFoil | tcg_card_parsers.py:95-135 | a `[foil]` marker sets the finish to `foil`, and the name is cut before `- [` for a foil and before `(` for an art type |
| TcgCardParsers.FoilWithoutDashLosesLastChar | tcg_card_parsers.py:128-129 | a foil name without `- [` loses its last character, because `find` returns -1 |
| BirdAnalyzer.MapAll | bird_analyzer.py:69-70 | the keys are the parts transformed one by one, in order, as many as there are parts |
| BirdAnalyzer.StripAll | bird_analyzer.py:69-70 | as many stripped keys as comma-separated parts |
| BirdAnalyzer.GenusKeys | bird_analyzer.py:68-72 | a genera cell always gives at least one genus key |
| BirdAnalyzer.GenusEntryMembers | bird_analyzer.py:67-72 | a row stores a genus pair exactly when its genera and feature are present, the pair's value is the feature and its key is one of the row's genus keys |
| BirdAnalyzer.OrderStep | bird_analyzer.py:63-64 | one more map row updates the order map by its order entry, if it has one |
| BirdAnalyzer.FamilyStep | bird_analyzer.py:65-66 | one more map row updates the family map by its family entry, if it has one |
| BirdAnalyzer.GenusStep | bird_analyzer.py:67-72 | one more map row appends exactly its genus entries |
| BirdAnalyzer.StoreGenera | bird_analyzer.py:69-70 | the inner loop stores every stripped part under the feature, in order |
| BirdAnalyzer.StoreMapRow | bird_analyzer.py:58-72 | one row of the first loop turns the maps of the earlier rows into the maps of the rows so far |
| BirdAnalyzer.ReadMapRow | bird_analyzer.py:57-72 | the body of the first loop turns the maps of the rows before index `i` into the maps of the rows up to `i` |
| BirdAnalyzer.BuildFeatureMaps | bird_analyzer.py:53-72 | the first loop builds exactly the three maps `Maps` of the map table |
| BirdAnalyzer.OrderMapLastWins | bird_analyzer.py:63-64 | an order is in its map exactly when some row gives it with a feature, and maps to the feature of the last such row |
| BirdAnalyzer.FamilyMapLastWins | bird_analyzer.py:65-66 | a family is in its map exactly when some row gives it with a feature, and maps to the feature of the last such row |
| BirdAnalyzer.TagAt | bird_analyzer.py:69-70 | every genus key of a row is paired with the row's feature |
| BirdAnalyzer.GenusStores | bird_analyzer.py:67-72 | a row stores a genus exactly when it lists it with a feature, and stores the row's feature |
| BirdAnalyzer.GenusMapLastWins | bird_analyzer.py:67-72 | a genus is in its map exactly when some row lists it with a feature, and maps to the feature of the last such row |
| BirdAnalyzer.GenusKeysSplit | bird_analyzer.py:68-72 | a genera cell without a comma, or starting with one, is a single key; a comma after the first character gives at least two keys |
| BirdAnalyzer.Lookup | bird_analyzer.py:96-101 | a feature is found exactly when the genus, the family or the order is present and mapped; the genus map wins, then the family map, then the order map |
| BirdAnalyzer.StoreNames | bird_analyzer.py:95-109 | the stores of one taxonomy row append exactly its name entries: the scientific name, then the common name, each when present and when a feature was found |
| BirdAnalyzer.StoreTaxonRow | bird_analyzer.py:87-109 | one taxonomy row, on its normalised cells, stores the entries of the feature found for its genus, family and order |
| BirdAnalyzer.ReadTaxonRow | bird_analyzer.py:82-109 | one row of the second loop turns the map of the earlier rows into the map of the rows so far |
| BirdAnalyzer.MapTaxonomy | bird_analyzer.py:79-111 | the second loop builds exactly `TaxonomyToFeature` |
| BirdAnalyzer.BuildTaxonomyToFeature | bird_analyzer.py:49-111 | `make_taxonomy_to_feature_map` returns exactly `MakeTaxonomyToFeatureMap` of the two tables |
| BirdAnalyzer.NameEntriesStore | bird_analyzer.py:95-109 | a row stores a name exactly when it is its present scientific or common name and a feature was found, and stores that feature |
| BirdAnalyzer.TaxonStores | bird_analyzer.py:95-109 | a taxonomy row stores a name exactly when it names that taxon with a feature, and stores the row's feature |
| BirdAnalyzer.TaxonomyMapLastWins | bird_analyzer.py:79-111 | a name is in the taxonomy map exactly when it is the scientific or common name of a row with a feature, and maps to the feature of the last such row |
| BirdAnalyzer.Genus | bird_analyzer.py:90-93 | "nan" gives "nan"; any other name gives a genus with no blank, shorter than a non-empty name, and with no whitespace at either end |
| BirdAnalyzer.GenusIsFirstWord | bird_analyzer.py:90-91 | for a stripped scientific name with a blank, the genus is the text before the first blank less the whitespace that ends it: a prefix of the name with no blank, non-empty when the blank is not first, followed only by whitespace up to the blank; with no other whitespace before the blank it is exactly that text |
| BirdAnalyzer.TabBeforeBlankIsStripped | bird_analyzer.py:91 | whitespace before the first blank is stripped from the genus: "ab\t c" gives "ab", not "ab\t" |
| BirdAnalyzer.NoBlankGenusDropsLastChar | bird_analyzer.py:91 | a scientific name without a blank loses its last character: "struthio" gives the genus "struthi" |
| BirdAnalyzer.FamilyName | bird_analyzer.py:87-88 | a family with no '(' after its first character is kept as it is; otherwise it is shortened and has no whitespace at either end |
| BirdAnalyzer.FamilyNameCut | bird_analyzer.py:87-88 | a family with '(' after its first character is cut to the text before the first '(' less the whitespace around it: a slice of that text with only whitespace before and after it, no '(' and no whitespace at either end |
| BirdAnalyzer.Classify | bird_analyzer.py:140-155 | human exactly when the common name is human or the name homo sapiens; else swine exactly for the five swine names; else mapped by scientific name exactly when the host name is in the map, else by common name exactly when the common name is, each with the mapped feature; else not mapped |
| BirdAnalyzer.CountRow | bird_analyzer.py:134-155 | the loop body, on the normalised names, counts the row under exactly its classification |
| BirdAnalyzer.RunAnalyzer | bird_analyzer.py:114-155 | `run` builds the taxonomy map, then counts every annotation row, giving exactly `Run` |
| BirdAnalyzer.CountsBalance | bird_analyzer.py:133-155 | the total is the number of rows and the sum of the five counters, and one line is reported per mapped row |
| HostAnalyzer.CleanStr | host_analyzer.py:52-56 | an empty string or any casing of "nan" becomes "NA"; anything else has its whitespace runs collapsed and stays non-empty |
| HostAnalyzer.CollapseSpaceHead | host_analyzer.py:54-56 | collapsing keeps a string non-empty and keeps its first character, or turns leading whitespace into one blank |
| HostAnalyzer.CollapseSpaceSingle | host_analyzer.py:54-56 | after collapsing, every whitespace character is a blank that is not followed by another whitespace character |
| HostAnalyzer.CleanStrSingleBlanks | host_analyzer.py:52-56 | the cleaned string holds only single blanks as whitespace |
| HostAnalyzer.MatchLine | host_analyzer.py:29-42 | a match line ends with a line break, and without it splits at tabs into exactly eleven cells: the cleaned source names, the match type and the eight cleaned target cells |
| HostAnalyzer.NoMatchLine | host_analyzer.py:45-49 | a no-match line ends with a line break, and without it splits at tabs into exactly the two cleaned source names |
| HostAnalyzer.CleanStrNoTab | host_analyzer.py:52-56 | a cleaned cell holds no tab |
| HostAnalyzer.LastIndex | host_analyzer.py:25 | the index of the last occurrence of a character, or -1 when there is none |
| HostAnalyzer.ParenSearchIff | host_analyzer.py:25 | the lazy search for group 1 succeeds exactly when a '(' at or after the given length is followed, two characters or more later, by the last ')' |
| HostAnalyzer.ParenSplitIff | host_analyzer.py:25 | the parenthesis pattern matches exactly when some '(' after the first character has the last ')' at least two characters after it |
| HostAnalyzer.CommaSearchIff | host_analyzer.py:26 | the lazy search succeeds exactly when a ',' at or after the given length has a character after it |
| HostAnalyzer.CommaSplitIff | host_analyzer.py:26 | the comma pattern matches exactly when a ',' after the first character is not the last character |
| HostAnalyzer.Hits | host_analyzer.py:122-125 | a lookup never yields more rows than the target table holds |
| HostAnalyzer.HitsMembers | host_analyzer.py:122-125 | a target row is found exactly when its cell equals the name, ignoring case; a non-empty lookup begins with the first such row |
| HostAnalyzer.QueriesWithoutCommon | host_analyzer.py:10-263 | with matching on the common name off, no rule tried looks up the source common name |
| HostAnalyzer.FirstHitSnoc | host_analyzer.py:127-263 | one more rule decides only when no earlier rule found anything and its own lookup does |
| HostAnalyzer.FirstHitKeeps | host_analyzer.py:127-263 | once a rule has decided, later rules change nothing |
| HostAnalyzer.FirstHitWins | host_analyzer.py:127-263 | a rule decides exactly when some rule finds a target row, and the deciding rule is the first such one, with its lookup |
| HostAnalyzer.TryRule | host_analyzer.py:127-142 | one `if not df.empty and not match` block keeps the flag and the counters equal to those of the first hit among the rules so far |
| HostAnalyzer.TryTwo | host_analyzer.py:127-142 | two blocks in a row keep the same correspondence |
| HostAnalyzer.TryFour | host_analyzer.py:144-240 | four blocks in a row keep the same correspondence |
| HostAnalyzer.TrySplits | host_analyzer.py:144-240 | the parenthesis and comma blocks, entered only while unmatched, keep the same correspondence |
| HostAnalyzer.TryCommon | host_analyzer.py:242-263 | the common-name blocks, entered only when enabled and unmatched, keep the same correspondence |
| HostAnalyzer.Decide | host_analyzer.py:120-263 | the cascade of one row matches exactly when some rule finds a target, and counts exactly the first deciding rule |
| HostAnalyzer.ReadNames | host_analyzer.py:116-268 | a considered row is counted, decided and concluded as `NamesTallied` says |
| HostAnalyzer.ReadRow | host_analyzer.py:108-268 | the loop body tallies one row: skipped unless its host group is the limit group |
| HostAnalyzer.TallyPrefix | host_analyzer.py:107-268 | one more row of the loop extends the tally of the rows before it |
| HostAnalyzer.Read | host_analyzer.py:59-270 | `read` yields exactly the tally of all source rows |
| HostAnalyzer.NamesBalanced | host_analyzer.py:116-268 | one considered row keeps the counters balanced |
| HostAnalyzer.TallyBalance | host_analyzer.py:107-268 | after the loop: total is the number of considered rows and the sum of matches and non-matches, every match is credited to one rule, each match without a multiple hit writes one match line, each non-match one no-match line, and the common-name counters stay zero when that option is off |
| HostAnalyzer.SkippedRowChangesNothing | host_analyzer.py:112-114 | a row outside the limit host group changes no counter and writes nothing |
| HostAnalyzer.SciToSciFirst | host_analyzer.py:122-130 | a scientific name found among the target scientific names is always decided by the sci-to-sci rule with that lookup |

## Left out

- Files, printing and progress output: reading and writing files is modelled by the lines read and the lines written; `print` output, including debug prints, is not modelled.
- Partial output on abort: when a script stops with an error, the model returns only the failure, not the lines written before it.
- pandas and csv reading: a table is a sequence of rows of strings; a missing cell is the string "nan" (as `str(NaN)` gives) or an absent value where the script compares cells directly.
- Case mapping is ASCII only; Unicode case folding and normalisation are not modelled.
- Floating point: ratios and normalised distances are exact reals, not IEEE doubles; the distance, stored by `TargetMatch` as a float, is an integer here and printed with a ".0" suffix, which is how Python prints a whole-valued float.
- Molseq.Chunks, Molseq.Fill and Molseq.FastaWrapped: `textwrap.fill` is modelled only for text with neither whitespace nor '-', where it can break only at the width; it also breaks after a hyphen, which this model does not compute. Both callers, clean_fasta.py:108 and seq_annotate.py, write records read by `stream_fasta` with gaps removed, so their sequences meet this (CleanFasta.StreamUnbreakable, SeqAnnotate.RunProperties).
- The general regular-expression engine: each pattern the scripts use is written out by hand, for inputs without line breaks.
- gb_download.py is not part of this model: it only fetches records over the network and writes them out.
- mtg_compare.py is not part of this model: it is set algebra over cards plus file output; card equality and ordering are modelled in `TcgCard`.
- gb_protein_x.py is not part of this model: its `extract` calls `calculate_irregular_chars_aa`, which `MolSeq` does not define (gb_protein_x.py:46 against molseq.py:66), and its `stream_fasta` repeats the one in clean_fasta.py.
- `PeptideMapping.map_windowed` (peptide_mapping.py:56-57) is not part of this model: it calls Python's builtin `map` rather than the class method, so it cannot return matches.
- `util.clean_str`, used by the card constructor and the card parsers, is not shown in the source; it is a function parameter.
- msa_rename.py's own `parse_fasta_file` reuses the `FastaParser` parse; the parser objects are not re-created.
- clean_mol_seq.py's `verbose` flag and its per-bucket prints are not modelled.
- HostAnalyzer: `MATCH_WITH_SOURCE_COMMON_NAME` is a parameter; the limit host group is the script's constant, which is non-empty, so the emptiness test on it is not modelled.
- BirdAnalyzer.GenusIsFirstWord: the genus cut `name[0:name.find(' ')].strip()` is modelled as written; a name without a blank loses its last character (NoBlankGenusDropsLastChar), which is not claimed as a fault because the taxonomy may never hold such names, and whitespace other than a blank just before the first blank is stripped from the genus (TabBeforeBlankIsStripped), so the genus equals the text before the blank only when that text has no whitespace.
- Text.IsDigit is ASCII only: Python's `\d` (clean_fasta.py:86, gb_mut_map.py:3) also matches the other Unicode decimal digits, which this model does not.
- SemicolonsToTabs: its own contract says only that no ';' remains; what it computes is stated by LinExtract.SemicolonsToTabsIsFieldJoin, against a split-trim-join definition.
- TcgCardParsers: the TCGplayer name cut at `find('- [')` is modelled as written; a name without that marker loses its last character, documented by a lemma rather than claimed as a fault for the same reason.
- TargetMatch.GetQuerySequence: returns the target's matched window, as the code does, not a stored query.
- `sys.exit` and uncaught exceptions are failure results carrying the reason; the exit status is not modelled.

## Findings

| source | as written | input that shows it | evidently intended | confidence | as-written member | corrected member |
|---|---|---|---|---|---|---|
| peptide_mapping.py:51 | `TargetMatch(...)` is called with four arguments, but the constructor at target_match.py:30-31 requires at least seven, so every window within the distance raises `TypeError` | query "query", target "queryquery" | return the matches for the two windows at offsets 0 and 5 | not executed | PeptideMapping.MapAsWritten | PeptideMapping.Map |
