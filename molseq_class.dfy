/// molseq_class.py: a labelled sequence whose `to_fasta` builds the wrapped
/// body character by character into a field, and whose label can be replaced.
module MolseqClass {
  import opened Text
  import opened Arith

  /** The wrapped body of `to_fasta(w)` for `w != 0`: each character of `s`,
      followed by a line break whenever its 1-based position is a multiple of `w`. */
  function Wrap(s: string, w: int): string
    requires w != 0
  {
    if s == [] then []
    else Wrap(s[..|s| - 1], w) + [s[|s| - 1]] + (if |s| % w == 0 then "\n" else "")
  }

  /** `s` with every line break deleted. */
  function Unwrap(s: string): string {
    Without(s, c => c == '\n')
  }

  lemma {:induction false} WithoutAppend(a: string, b: string, drop: char -> bool)
    ensures Without(a + b, drop) == Without(a, drop) + Without(b, drop)
  {
    if a == [] {
      assert a + b == b;
    } else {
      var head := if drop(a[0]) then [] else [a[0]];
      assert (a + b)[0] == a[0] && (a + b)[1..] == a[1..] + b;
      WithoutAppend(a[1..], b, drop);
      assert Without(a + b, drop) == head + (Without(a[1..], drop) + Without(b, drop));
    }
  }

  /** Deleting the inserted line breaks gives the sequence back. */
  lemma {:induction false} UnwrapWrap(s: string, w: int)
    requires w != 0 && '\n' !in s
    ensures Unwrap(Wrap(s, w)) == s
  {
    if s != [] {
      var p, c := s[..|s| - 1], s[|s| - 1];
      assert '\n' !in p && c != '\n';
      UnwrapWrap(p, w);
      var nl := if |s| % w == 0 then "\n" else "";
      WithoutAppend(Wrap(p, w) + [c], nl, c => c == '\n');
      WithoutAppend(Wrap(p, w), [c], c => c == '\n');
      assert s == p + [c];
    }
  }

  /** The body is one character longer per full line. */
  lemma {:induction false} WrapLength(s: string, w: nat)
    requires w > 0
    ensures |Wrap(s, w)| == |s| + |s| / w
  {
    if s != [] {
      WrapLength(s[..|s| - 1], w);
      DivStep(|s| - 1, w);
    }
  }

  /** Character i of the sequence sits at i + i/w in the body, and the character
      after it is a line break exactly when i+1 is a multiple of w: all lines but
      the last are full. */
  lemma {:induction false} WrapPositions(s: string, w: nat, i: nat)
    requires w > 0 && '\n' !in s && i < |s|
    ensures i + i / w < |Wrap(s, w)| && Wrap(s, w)[i + i / w] == s[i]
    ensures i + i / w + 1 < |Wrap(s, w)| ==>
      (Wrap(s, w)[i + i / w + 1] == '\n' <==> (i + 1) % w == 0)
    ensures i == |s| - 1 ==> (i + i / w + 1 < |Wrap(s, w)| <==> |s| % w == 0)
  {
    var n := |s| - 1;
    var p, c := s[..n], s[n];
    var nl := if |s| % w == 0 then "\n" else "";
    assert Wrap(s, w) == Wrap(p, w) + [c] + nl;
    WrapLength(p, w);
    WrapLength(s, w);
    DivStep(n, w);
    if i < n {
      WrapPositions(p, w, i);
      if i + i / w + 1 == |Wrap(p, w)| {
        DivMonotone(i, n, w);
        assert i == n - 1;
        assert Wrap(s, w)[i + i / w + 1] == c;
      }
    }
  }

  class MolSeq {
    var seqLabel: string
    var residues: string
    var fastaLine: string

    /** `MolSeq(label, seq)`: the label converted to text; both stripped. */
    constructor (labelText: string, residues: string)
      ensures this.seqLabel == Strip(labelText) && this.residues == Strip(residues)
      ensures fastaLine == []
    {
      this.seqLabel := Strip(labelText);
      this.residues := Strip(residues);
      fastaLine := [];
    }

    function GetLength(): nat
      reads this
    {
      |residues|
    }

    /** `to_fasta(chars_per_line)`: unwrapped when `chars_per_line == False`
        (that is, 0); otherwise the body is rebuilt into `fastaLine`. */
    method ToFasta(charsPerLine: int) returns (r: string)
      modifies this`fastaLine
      ensures charsPerLine == 0 ==> r == ">" + seqLabel + "\n" + residues && fastaLine == old(fastaLine)
      ensures charsPerLine != 0 ==> fastaLine == Wrap(residues, charsPerLine)
                                    && r == ">" + seqLabel + "\n" + fastaLine
    {
      if charsPerLine == 0 {
        return ">" + seqLabel + "\n" + residues;
      }
      fastaLine := "";
      var i := 0;
      while i < GetLength()
        invariant 0 <= i <= |residues|
        invariant fastaLine == Wrap(residues[..i], charsPerLine)
      {
        assert residues[..i + 1][..i] == residues[..i];
        if (i + 1) % charsPerLine == 0 {
          fastaLine := fastaLine + [residues[i]] + "\n";
        } else {
          fastaLine := fastaLine + [residues[i]];
        }
        i := i + 1;
      }
      assert residues[..i] == residues;
      r := ">" + seqLabel + "\n" + fastaLine;
    }

    /** `set_label(new_label)`: only the label changes. */
    method SetLabel(newLabel: string)
      modifies this`seqLabel
      ensures seqLabel == newLabel
    {
      seqLabel := newLabel;
    }
  }

  /** The label and sequence survive a wrapped `to_fasta`: the body's line
      breaks removed, it is the sequence again. */
  method ToFastaRoundTrip(m: MolSeq, w: nat) returns (body: string)
    requires w > 0 && '\n' !in m.residues
    modifies m`fastaLine
    ensures Unwrap(body) == m.residues
    ensures |body| == |m.residues| + |m.residues| / w
  {
    var text := m.ToFasta(w);
    body := m.fastaLine;
    UnwrapWrap(m.residues, w);
    WrapLength(m.residues, w);
  }
}
