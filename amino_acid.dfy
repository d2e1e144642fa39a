/// The amino-acid classes of `AminoAcid`: each test upper-cases its argument
/// and asks whether the result is one of a fixed list of one-letter codes.
module AminoAcid {
  import opened Results
  import opened Text

  predicate IsHydrophobicNonAromatic(aa: string) {
    Upper(aa) in ["A", "V", "I", "L", "M"]
  }

  predicate IsHydrophobicAromatic(aa: string) {
    Upper(aa) in ["F", "Y", "W"]
  }

  predicate IsPolarUncharged(aa: string) {
    Upper(aa) in ["S", "T", "N", "Q"]
  }

  predicate IsPolarPositive(aa: string) {
    Upper(aa) in ["R", "H", "K"]
  }

  predicate IsPolarNegative(aa: string) {
    Upper(aa) in ["D", "E"]
  }

  /** The one-letter code an argument names, if it is a single character:
      its upper-case form. */
  function Code(aa: string): (c: Option<char>)
    ensures c.Some? <==> |aa| == 1
    ensures c.Some? ==> [c.value] == Upper(aa)
  {
    if |aa| == 1 then Some(UpperChar(aa[0])) else None
  }

  /** Each class holds exactly for the one-character arguments whose
      upper-case form is in its list. */
  lemma ClassesByCode(aa: string)
    ensures IsHydrophobicNonAromatic(aa) <==> Code(aa).Some? && Code(aa).value in {'A', 'V', 'I', 'L', 'M'}
    ensures IsHydrophobicAromatic(aa) <==> Code(aa).Some? && Code(aa).value in {'F', 'Y', 'W'}
    ensures IsPolarUncharged(aa) <==> Code(aa).Some? && Code(aa).value in {'S', 'T', 'N', 'Q'}
    ensures IsPolarPositive(aa) <==> Code(aa).Some? && Code(aa).value in {'R', 'H', 'K'}
    ensures IsPolarNegative(aa) <==> Code(aa).Some? && Code(aa).value in {'D', 'E'}
  {
    if |aa| == 1 {
      assert Upper(aa) == [UpperChar(aa[0])];
    }
  }

  /** Hydrophobic non-aromatic residues are exactly A, V, I, L and M, in
      either case. */
  lemma HydrophobicNonAromaticExactly(aa: string)
    ensures IsHydrophobicNonAromatic(aa) <==>
      aa in ["A", "V", "I", "L", "M", "a", "v", "i", "l", "m"]
  {
    ClassesByCode(aa);
    if |aa| == 1 {
      assert aa == [aa[0]];
    }
  }

  /** Aromatic residues are exactly F, Y and W, in either case. */
  lemma HydrophobicAromaticExactly(aa: string)
    ensures IsHydrophobicAromatic(aa) <==> aa in ["F", "Y", "W", "f", "y", "w"]
  {
    ClassesByCode(aa);
    if |aa| == 1 {
      assert aa == [aa[0]];
    }
  }

  /** Upper-casing first changes nothing: the tests ignore case. */
  lemma ClassesIgnoreCase(aa: string)
    ensures IsHydrophobicNonAromatic(Upper(aa)) == IsHydrophobicNonAromatic(aa)
    ensures IsHydrophobicAromatic(Upper(aa)) == IsHydrophobicAromatic(aa)
    ensures IsPolarUncharged(Upper(aa)) == IsPolarUncharged(aa)
    ensures IsPolarPositive(Upper(aa)) == IsPolarPositive(aa)
    ensures IsPolarNegative(Upper(aa)) == IsPolarNegative(aa)
    ensures IsHydrophobicNonAromatic(Lower(aa)) == IsHydrophobicNonAromatic(aa)
    ensures IsHydrophobicAromatic(Lower(aa)) == IsHydrophobicAromatic(aa)
    ensures IsPolarUncharged(Lower(aa)) == IsPolarUncharged(aa)
    ensures IsPolarPositive(Lower(aa)) == IsPolarPositive(aa)
    ensures IsPolarNegative(Lower(aa)) == IsPolarNegative(aa)
  {
    assert Upper(Upper(aa)) == Upper(aa);
    assert Upper(Lower(aa)) == Upper(aa);
  }

  /** The five lists share no letter, so no argument is in two classes. */
  lemma AtMostOneClass(aa: string)
    ensures (if IsHydrophobicNonAromatic(aa) then 1 else 0) + (if IsHydrophobicAromatic(aa) then 1 else 0)
      + (if IsPolarUncharged(aa) then 1 else 0) + (if IsPolarPositive(aa) then 1 else 0)
      + (if IsPolarNegative(aa) then 1 else 0) <= 1
  {
    ClassesByCode(aa);
  }

  /** Letters in no list, and arguments longer than one character, are in no
      class. */
  lemma NoClass(aa: string)
    requires |aa| != 1 || UpperChar(aa[0]) in {'G', 'P', 'C', 'B', 'J', 'O', 'U', 'X', 'Z'}
    ensures !IsHydrophobicNonAromatic(aa) && !IsHydrophobicAromatic(aa) && !IsPolarUncharged(aa)
      && !IsPolarPositive(aa) && !IsPolarNegative(aa)
  {
    ClassesByCode(aa);
  }
}
