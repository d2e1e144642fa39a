/// molseq.py: a molecular sequence (identifier and residues) with length,
/// FASTA text and two composition counts. The same record, as a value, is what
/// every FASTA reader of the scripts produces.
module Molseq {
  import opened Text

  /** An identifier and a residue string as a record stores them. */
  datatype SeqRecord = SeqRecord(id: string, residues: string)

  /** What both sequence constructors (molseq.py and molseq_class.py) store:
      the text of each argument with surrounding whitespace stripped. */
  function NewRecord(id: string, residues: string): SeqRecord {
    SeqRecord(Strip(id), Strip(residues))
  }

  predicate IsRegularNa(c: char) {
    c in "aAcCgGtT"
  }

  predicate IsIrregularAa(c: char) {
    c in "_-?Xx*."
  }

  /** Characters of `s` that `p` selects. */
  function CountWhere(s: string, p: char -> bool): (n: nat)
    ensures n <= |s|
  {
    if s == [] then 0 else (if p(s[0]) then 1 else 0) + CountWhere(s[1..], p)
  }

  /** `count_regular_chars_na()`: a, c, g and t in either case, one `count` per letter. */
  function CountRegularCharsNa(s: string): nat {
    Count(s, 'a') + Count(s, 'A') + Count(s, 'c') + Count(s, 'C')
    + Count(s, 'g') + Count(s, 'G') + Count(s, 't') + Count(s, 'T')
  }

  /** `count_irregular_chars_aa()`: the gap, unknown and stop markers. */
  function CountIrregularCharsAa(s: string): nat {
    Count(s, '_') + Count(s, '-') + Count(s, '?') + Count(s, 'X') + Count(s, 'x')
    + Count(s, '*') + Count(s, '.')
  }

  /** The fraction of regular nucleotides of a non-empty sequence (as a real
      number: the scripts' floating-point division is not modelled). */
  function RegularNaRatio(residues: string): (r: real)
    requires |residues| > 0
    ensures 0.0 <= r <= 1.0
  {
    RegularAndIrregularWithinLength(residues);
    Ratio(CountRegularCharsNa(residues), |residues|)
  }

  /** `part / whole` under Python 3's true division, as a real number. */
  function Ratio(part: nat, whole: nat): (r: real)
    requires whole > 0
    ensures 0.0 <= r && (part <= whole ==> r <= 1.0)
  {
    Fraction(part as real, whole as real);
    (part as real) / (whole as real)
  }

  lemma Fraction(part: real, whole: real)
    requires 0.0 <= part && 0.0 < whole
    ensures 0.0 <= part / whole && (part <= whole ==> part / whole <= 1.0)
  {
  }

  /** A text in which `textwrap` finds no place to break but the width: it
      breaks at whitespace and after a hyphen, so the text holds neither. */
  predicate Unbreakable(s: string) {
    NoSpace(s) && '-' !in s
  }

  lemma UnbreakableSlice(s: string, i: nat, j: nat)
    requires Unbreakable(s) && i <= j <= |s|
    ensures Unbreakable(s[i..j])
  {
    assert forall k :: 0 <= k < j - i ==> s[i..j][k] == s[i + k];
  }

  /** The lines of `textwrap.fill(s, width=w)` for an unbreakable text:
      full lines of `w` characters and a last, possibly shorter, one. */
  function Chunks(s: string, w: nat): (lines: seq<string>)
    requires w > 0 && Unbreakable(s)
    ensures |lines| >= 1
    decreases |s|
  {
    if |s| <= w then [s]
    else
      UnbreakableSlice(s, w, |s|);
      [s[..w]] + Chunks(s[w..], w)
  }

  /** `textwrap.fill(s, width=w)` for an unbreakable text. */
  function Fill(s: string, w: nat): string
    requires w > 0 && Unbreakable(s)
  {
    Join(Chunks(s, w), "\n")
  }

  /** The lines cover `s` in order; every line but the last has `w`
      characters, the last at most `w`. */
  lemma {:induction false} ChunksCover(s: string, w: nat)
    requires w > 0 && Unbreakable(s)
    ensures Concat(Chunks(s, w)) == s
    ensures forall k :: 0 <= k < |Chunks(s, w)| - 1 ==> |Chunks(s, w)[k]| == w
    ensures |Chunks(s, w)[|Chunks(s, w)| - 1]| <= w
  {
    if |s| > w {
      UnbreakableSlice(s, w, |s|);
      ChunksCover(s[w..], w);
      assert Chunks(s, w) == [s[..w]] + Chunks(s[w..], w);
      assert s == s[..w] + s[w..];
    }
  }

  function Concat(parts: seq<string>): string {
    if parts == [] then [] else parts[0] + Concat(parts[1..])
  }

  /** An unbreakable text holds no line break, '\n' being whitespace. */
  lemma UnbreakableNoNewline(s: string)
    requires Unbreakable(s)
    ensures '\n' !in s
  {
    assert forall k :: 0 <= k < |s| ==> s[k] != '\n' by {
      assert IsSpace('\n');
    }
  }

  /** Every line of `Chunks(s, w)` is a slice of `s`: unbreakable too, and so
      without a line break. */
  lemma {:induction false} ChunksUnbreakable(s: string, w: nat)
    requires w > 0 && Unbreakable(s)
    ensures forall k :: 0 <= k < |Chunks(s, w)| ==>
              Unbreakable(Chunks(s, w)[k]) && '\n' !in Chunks(s, w)[k]
  {
    if |s| <= w {
      UnbreakableNoNewline(s);
    } else {
      UnbreakableSlice(s, 0, w);
      UnbreakableSlice(s, w, |s|);
      assert s[0..w] == s[..w];
      UnbreakableNoNewline(s[..w]);
      ChunksUnbreakable(s[w..], w);
      assert Chunks(s, w) == [s[..w]] + Chunks(s[w..], w);
    }
  }

  /** The wrapped body splits at its line breaks into the lines of at most
      `w` characters that, concatenated, give the sequence back. */
  lemma FillLines(s: string, w: nat)
    requires w > 0 && Unbreakable(s)
    ensures Split(Fill(s, w), "\n") == Chunks(s, w)
    ensures Concat(Split(Fill(s, w), "\n")) == s
  {
    ChunksUnbreakable(s, w);
    SplitJoin(Chunks(s, w), '\n');
    ChunksCover(s, w);
  }

  /** `to_fasta_wrapped(w)`: the '>' line, then the sequence filled to `w`
      columns. */
  function FastaWrapped(rec: SeqRecord, w: nat): (r: string)
    requires w > 0 && Unbreakable(rec.residues)
    ensures ">" + rec.id + "\n" <= r
  {
    ">" + rec.id + "\n" + Fill(rec.residues, w)
  }

  /** The wrapped FASTA text splits into the '>' line and the lines of the
      sequence, each at most `w` characters long. */
  lemma FastaWrappedLines(rec: SeqRecord, w: nat)
    requires w > 0 && '\n' !in rec.id && Unbreakable(rec.residues)
    ensures Split(FastaWrapped(rec, w), "\n") == [">" + rec.id] + Chunks(rec.residues, w)
  {
    var head := ">" + rec.id;
    var body := Fill(rec.residues, w);
    assert '\n' !in head;
    FirstOccurrence(head, '\n', body);
    var s := head + "\n" + body;
    assert s == FastaWrapped(rec, w);
    assert s[..|head|] == head;
    assert s[|head| + 1..] == body;
    FillLines(rec.residues, w);
  }

  lemma {:induction false} RegularNaCountsClass(s: string)
    ensures CountRegularCharsNa(s) == CountWhere(s, IsRegularNa)
  {
    if s != [] {
      RegularNaCountsClass(s[1..]);
    }
  }

  lemma {:induction false} IrregularAaCountsClass(s: string)
    ensures CountIrregularCharsAa(s) == CountWhere(s, IsIrregularAa)
  {
    if s != [] {
      IrregularAaCountsClass(s[1..]);
    }
  }

  lemma {:induction false} DisjointCountsBound(s: string, p: char -> bool, q: char -> bool)
    requires forall c :: !(p(c) && q(c))
    ensures CountWhere(s, p) + CountWhere(s, q) <= |s|
  {
    if s != [] {
      DisjointCountsBound(s[1..], p, q);
    }
  }

  /** The regular nucleotide letters and the irregular amino-acid markers are
      disjoint, so together they never exceed the length. */
  lemma RegularAndIrregularWithinLength(s: string)
    ensures CountRegularCharsNa(s) + CountIrregularCharsAa(s) <= |s|
    ensures CountRegularCharsNa(s) <= |s| && CountIrregularCharsAa(s) <= |s|
  {
    RegularNaCountsClass(s);
    IrregularAaCountsClass(s);
    DisjointCountsBound(s, IsRegularNa, IsIrregularAa);
  }

  /** Counting regular nucleotides ignores case. */
  lemma {:induction false} RegularNaIgnoresCase(s: string)
    ensures CountRegularCharsNa(Lower(s)) == CountRegularCharsNa(s)
    ensures CountRegularCharsNa(Upper(s)) == CountRegularCharsNa(s)
  {
    if s != [] {
      var lo, up := Lower(s), Upper(s);
      assert lo[0] == LowerChar(s[0]) && lo[1..] == Lower(s[1..]);
      assert up[0] == UpperChar(s[0]) && up[1..] == Upper(s[1..]);
      RegularNaStep(s);
      RegularNaStep(lo);
      RegularNaStep(up);
      RegularNaCharIgnoresCase(s[0]);
      RegularNaIgnoresCase(s[1..]);
    }
  }

  /** The count of a non-empty string, by its first character. */
  lemma RegularNaStep(s: string)
    requires s != []
    ensures CountRegularCharsNa(s) == (if IsRegularNa(s[0]) then 1 else 0) + CountRegularCharsNa(s[1..])
  {
  }

  lemma RegularNaCharIgnoresCase(c: char)
    ensures IsRegularNa(LowerChar(c)) == IsRegularNa(c)
    ensures IsRegularNa(UpperChar(c)) == IsRegularNa(c)
  {
  }

  class MolSeq {
    var seqId: string
    var residues: string

    /** `MolSeq(seq_id, seq)`: both stripped. */
    constructor (id: string, s: string)
      ensures seqId == Strip(id) && residues == Strip(s)
      ensures GetLength() == |Strip(s)|
    {
      seqId := Strip(id);
      residues := Strip(s);
    }

    /** `set_seq_id(id)`: the new identifier verbatim, not stripped. */
    method SetSeqId(id: string)
      modifies this
      ensures seqId == id && residues == old(residues)
    {
      seqId := id;
    }

    function GetLength(): nat
      reads this
    {
      |residues|
    }

    function Record(): SeqRecord
      reads this
    {
      SeqRecord(seqId, residues)
    }

    /** `to_fasta()`. */
    function ToFasta(): string
      reads this
    {
      ">" + seqId + "\n" + residues
    }

    /** `to_fasta_wrapped(w)`. */
    function ToFastaWrapped(w: nat): string
      requires w > 0 && Unbreakable(residues)
      reads this
    {
      FastaWrapped(Record(), w)
    }

    function RegularNa(): (n: nat)
      reads this
      ensures n <= GetLength()
    {
      RegularAndIrregularWithinLength(residues);
      CountRegularCharsNa(residues)
    }

    function IrregularAa(): (n: nat)
      reads this
      ensures n + RegularNa() <= GetLength()
    {
      RegularAndIrregularWithinLength(residues);
      CountIrregularCharsAa(residues)
    }
  }

  /** The FASTA text of a record splits into the '>' line and the sequence. */
  lemma ToFastaLines(m: MolSeq)
    requires '\n' !in m.seqId && '\n' !in m.residues
    ensures Split(m.ToFasta(), "\n") == [">" + m.seqId, m.residues]
  {
    assert '\n' !in ">" + m.seqId;
    SplitAtNewline(">" + m.seqId, m.residues);
  }
}
