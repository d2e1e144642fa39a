/// `gb_mut_map.parse`: a map from protein accession to genome accession is
/// read from lines `GENOME.n <whitespace> PROTEIN.n` (version suffixes
/// dropped), then every mutation row whose first tab field is a mapped
/// protein is written as the genome accession, a tab and the row's seventh
/// field.
module GbMutMap {
  import opened Results
  import opened Text
  import opened Folds

  /** `\.\d+` can start at `p`. */
  predicate VersionAt(s: string, p: nat) {
    p + 1 < |s| && s[p] == '.' && IsDigit(s[p + 1])
  }

  /** A lazy `(.+?)` starting at `b`, followed by `\.\d+`: the least end
      `e > b` such that the group has no line break and a version follows,
      trying `e` upwards from the given one. */
  function LazyEnd(s: string, b: nat, e: nat): (r: Option<nat>)
    requires b < e <= |s|
    requires forall k :: b <= k < e - 1 ==> s[k] != '\n'
    ensures r.Some? ==> e <= r.value <= |s| && VersionAt(s, r.value)
    ensures r.Some? ==> forall k :: b <= k < r.value ==> s[k] != '\n'
    decreases |s| - e
  {
    if s[e - 1] == '\n' then None
    else if VersionAt(s, e) then Some(e)
    else if e == |s| then None
    else
      var r := LazyEnd(s, b, e + 1);
      r
  }

  /** `\s+(.+?)\.\d+` after the first version, whose digits end at `c`,
      trying the whitespace runs of length `w`, `w - 1`, ..., 1 in the order
      a backtracking engine does; the result is the second group's bounds. */
  function Tail(s: string, c: nat, w: nat): (r: Option<(nat, nat)>)
    requires 1 <= w && c + w <= |s|
    ensures r.Some? ==> c < r.value.0 < r.value.1 <= |s| && VersionAt(s, r.value.1)
    decreases w
  {
    var b := c + w;
    if b < |s| && LazyEnd(s, b, b + 1).Some? then Some((b, LazyEnd(s, b, b + 1).value))
    else if w == 1 then None
    else Tail(s, c, w - 1)
  }

  /** The rest of the pattern once the first group is `s[..a]`. */
  function Rest(s: string, a: nat): (r: Option<(nat, nat)>)
    ensures r.Some? ==> a < r.value.0 < r.value.1 <= |s|
  {
    if !VersionAt(s, a) then None
    else
      var c := a + 1 + DigitRun(s, a + 1);
      var w := SpaceRun(s, c);
      if w == 0 then None else Tail(s, c, w)
  }

  /** The lazy first group: the least `a` from the given one for which the
      rest of the pattern matches, with no line break in the group. */
  function FirstFrom(s: string, a: nat): (r: Option<(nat, nat, nat)>)
    requires 1 <= a <= |s|
    ensures r.Some? ==> a <= r.value.0 < r.value.1 < r.value.2 <= |s|
    decreases |s| - a
  {
    if s[a - 1] == '\n' then None
    else if Rest(s, a).Some? then Some((a, Rest(s, a).value.0, Rest(s, a).value.1))
    else if a == |s| then None
    else FirstFrom(s, a + 1)
  }

  /** `RE_1.match(line)`: the genome and protein accessions without their
      versions. */
  function MatchPair(line: string): (r: Option<(string, string)>)
    ensures r.Some? ==> r.value.0 != [] && r.value.1 != []
  {
    if line == [] then None
    else match FirstFrom(line, 1)
      case None => None
      case Some((a, b, e)) => Some((line[..a], line[b..e]))
  }

  /** What a map line contributes: the protein accession as key and the
      genome accession as value. */
  function MapEntry(line: string): Option<(string, string)> {
    match MatchPair(Strip(line))
    case None => None
    case Some((genome, protein)) => Some((protein, genome))
  }

  /** The protein-to-genome map after the given map lines. */
  function ProteinToGenome(lines: seq<string>): map<string, string> {
    Assign(lines, MapEntry)
  }

  method ReadMap(lines: seq<string>) returns (m: map<string, string>)
    ensures m == ProteinToGenome(lines)
  {
    m := map[];
    var i := 0;
    assert lines[..0] == [];
    assert m == Assign(lines[..0], MapEntry);
    while i < |lines|
      invariant 0 <= i <= |lines|
      invariant m == Assign(lines[..i], MapEntry)
    {
      AssignStep(lines, i, MapEntry);
      var line := Strip(lines[i]);
      var m1 := MatchPair(line);
      if m1.Some? {
        m := m[m1.value.1 := m1.value.0];
      }
      assert m == Assign(lines[..i + 1], MapEntry);
      i := i + 1;
    }
    assert lines[..i] == lines;
  }

  /** A protein is mapped exactly when some map line names it, to the genome
      of the last such line; lines that do not match change nothing. */
  lemma MapIsLastMention(lines: seq<string>, protein: string)
    ensures protein in ProteinToGenome(lines) <==>
      exists k :: 0 <= k < |lines| && MapEntry(lines[k]).Some? && MapEntry(lines[k]).value.0 == protein
    ensures protein in ProteinToGenome(lines) ==>
      exists k :: 0 <= k < |lines| && MapEntry(lines[k]) == Some((protein, ProteinToGenome(lines)[protein]))
        && forall j :: k < j < |lines| ==> MapEntry(lines[j]).None? || MapEntry(lines[j]).value.0 != protein
  {
    AssignLastWins(lines, MapEntry, protein);
  }

  /** The line written for a mutation row, if any: a stripped row with more
      than six tab fields whose first field is a mapped protein. */
  function OutputLine(m: map<string, string>, row: string): Option<string> {
    var fields := Split(Strip(row), "\t");
    if |fields| > 6 && fields[0] in m then Some(m[fields[0]] + "\t" + fields[6]) else None
  }

  function Writer(m: map<string, string>): string -> Option<string> {
    row => OutputLine(m, row)
  }

  /** The lines written for the mutation rows, in input order. */
  function Join(m: map<string, string>, rows: seq<string>): seq<string> {
    Collect(rows, Writer(m))
  }

  /** The second loop: lines written, each without its line break, and the
      counter. */
  method WriteMutations(m: map<string, string>, rows: seq<string>) returns (out: seq<string>, counter: nat)
    ensures out == Join(m, rows)
    ensures counter == |out|
  {
    out := [];
    counter := 0;
    var i := 0;
    assert rows[..0] == [];
    assert out == Collect(rows[..0], Writer(m));
    while i < |rows|
      invariant 0 <= i <= |rows|
      invariant out == Collect(rows[..i], Writer(m)) && counter == |out|
    {
      CollectStep(rows, i, Writer(m));
      var fields := Split(Strip(rows[i]), "\t");
      if |fields| > 6 {
        var prot := fields[0];
        var mut := fields[6];
        if prot in m {
          out := out + [m[prot] + "\t" + mut];
          counter := counter + 1;
        }
      }
      assert out == Collect(rows[..i + 1], Writer(m));
      i := i + 1;
    }
    assert rows[..i] == rows;
  }

  /** `parse` as a whole. */
  method Parse(mapLines: seq<string>, rows: seq<string>) returns (out: seq<string>, counter: nat)
    ensures out == Join(ProteinToGenome(mapLines), rows) && counter == |out|
  {
    var m := ReadMap(mapLines);
    out, counter := WriteMutations(m, rows);
  }

  /** Rows are handled independently and in order, and a line is written for
      a row exactly when its first field is mapped: the genome, a tab and
      the seventh field. */
  lemma JoinProperties(m: map<string, string>, rows1: seq<string>, rows2: seq<string>, line: string)
    ensures Join(m, rows1 + rows2) == Join(m, rows1) + Join(m, rows2)
    ensures |Join(m, rows1)| <= |rows1|
    ensures line in Join(m, rows1) <==> exists k :: 0 <= k < |rows1| && OutputLine(m, rows1[k]) == Some(line)
  {
    CollectAppend(rows1, rows2, Writer(m));
    CollectLength(rows1, Writer(m));
    CollectMembers(rows1, Writer(m), line);
  }

  /** A row produces a line exactly when it has more than six tab fields and
      its first field is mapped. */
  lemma OutputLineIff(m: map<string, string>, row: string)
    ensures OutputLine(m, row).Some? <==>
      |Split(Strip(row), "\t")| > 6 && Split(Strip(row), "\t")[0] in m
    ensures OutputLine(m, row).Some? ==>
      OutputLine(m, row).value == m[Split(Strip(row), "\t")[0]] + "\t" + Split(Strip(row), "\t")[6]
  {
  }

  /** A group of characters that are neither `.` nor a line break, followed
      by a version, ends at that version. */
  lemma {:induction false} LazyEndExact(s: string, b: nat, e: nat, f: nat)
    requires b < e <= f && VersionAt(s, f)
    requires forall k :: b <= k < f ==> s[k] != '\n' && s[k] != '.'
    ensures LazyEnd(s, b, e) == Some(f)
    decreases f - e
  {
    if e < f {
      assert !VersionAt(s, e);
      LazyEndExact(s, b, e + 1, f);
    }
  }

  /** No first group shorter than `a` works when none of its possible ends
      is followed by `.`. */
  lemma {:induction false} FirstFromSkips(s: string, a: nat, target: nat)
    requires 1 <= a <= target <= |s|
    requires forall k :: 0 <= k < target ==> s[k] != '\n' && s[k] != '.'
    ensures FirstFrom(s, a) == FirstFrom(s, target)
    decreases target - a
  {
    if a < target {
      assert !VersionAt(s, a);
      FirstFromSkips(s, a + 1, target);
    }
  }

  /** A well-formed map line `GENOME.n<whitespace>PROTEIN.m`, with
      accessions free of `.` and whitespace, maps the protein to the
      genome. */
  lemma WellFormedMapLine(line: string, genome: string, v1: string, ws: string, protein: string, v2: string)
    requires genome != [] && protein != [] && v1 != [] && v2 != [] && ws != []
    requires NoSpace(genome) && NoSpace(protein) && '.' !in genome && '.' !in protein
    requires forall k :: 0 <= k < |v1| ==> IsDigit(v1[k])
    requires forall k :: 0 <= k < |v2| ==> IsDigit(v2[k])
    requires forall k :: 0 <= k < |ws| ==> IsSpace(ws[k])
    requires line == genome + "." + v1 + ws + protein + "." + v2
    ensures MatchPair(line) == Some((genome, protein))
  {
    MapLineShape(line, genome, v1, ws, protein, v2);
    var a := |genome|;
    var c := a + 1 + |v1|;
    var b := c + |ws|;
    ShapedLineMatches(line, a, c, b, b + |protein|);
    assert line[..a] == genome && line[b..b + |protein|] == protein;
  }

  /** A line shaped like a map line matches with the genome and protein at
      their places. */
  lemma ShapedLineMatches(line: string, a: nat, c: nat, b: nat, f: nat)
    requires 1 <= a && a + 1 < c < b < f && f + 1 < |line|
    requires forall k :: 0 <= k < a ==> line[k] != '\n' && line[k] != '.'
    requires forall k :: a + 1 <= k < c ==> IsDigit(line[k])
    requires forall k :: c <= k < b ==> IsSpace(line[k])
    requires forall k :: b <= k < f ==> line[k] != '\n' && line[k] != '.'
    requires !IsSpace(line[b]) && !IsDigit(line[c])
    requires VersionAt(line, a) && VersionAt(line, f) && line[a - 1] != '\n'
    ensures MatchPair(line) == Some((line[..a], line[b..f]))
  {
    FirstFromSkips(line, 1, a);
    ShapedRest(line, a, c, b, f);
    FirstAt(line, a, b, f);
  }

  /** After the first group, the version, the blanks and the second group
      match as the pattern wants. */
  lemma ShapedRest(line: string, a: nat, c: nat, b: nat, f: nat)
    requires 1 <= a && a + 1 < c < b < f && f + 1 < |line|
    requires forall k :: a + 1 <= k < c ==> IsDigit(line[k])
    requires forall k :: c <= k < b ==> IsSpace(line[k])
    requires forall k :: b <= k < f ==> line[k] != '\n' && line[k] != '.'
    requires !IsSpace(line[b]) && !IsDigit(line[c])
    requires VersionAt(line, a) && VersionAt(line, f)
    ensures Rest(line, a) == Some((b, f))
  {
    ShapedRuns(line, a, c, b);
    ShapedTail(line, c, b, f);
    RestIs(line, a, c, b - c, b, f);
  }

  /** The version digits end at `c`, and the blanks after them at `b`. */
  lemma ShapedRuns(line: string, a: nat, c: nat, b: nat)
    requires a + 1 < c < b < |line|
    requires forall k :: a + 1 <= k < c ==> IsDigit(line[k])
    requires forall k :: c <= k < b ==> IsSpace(line[k])
    requires !IsSpace(line[b]) && !IsDigit(line[c])
    ensures c == a + 1 + DigitRun(line, a + 1) && SpaceRun(line, c) == b - c
  {
    DigitRunExact(line, a + 1, c - a - 1);
    SpaceRunExact(line, c, b - c);
  }

  /** The second group runs from the end of the blanks to the second version. */
  lemma ShapedTail(line: string, c: nat, b: nat, f: nat)
    requires c < b < f && f + 1 < |line|
    requires forall k :: b <= k < f ==> line[k] != '\n' && line[k] != '.'
    requires VersionAt(line, f)
    ensures Tail(line, c, b - c) == Some((b, f))
  {
    LazyEndExact(line, b, b + 1, f);
    TailFirst(line, c, b - c, f);
  }

  /** Where the parts of a well-formed map line sit. */
  lemma MapLineShape(line: string, genome: string, v1: string, ws: string, protein: string, v2: string)
    requires genome != [] && protein != [] && v1 != [] && v2 != [] && ws != []
    requires NoSpace(genome) && NoSpace(protein) && '.' !in genome && '.' !in protein
    requires forall k :: 0 <= k < |v1| ==> IsDigit(v1[k])
    requires forall k :: 0 <= k < |v2| ==> IsDigit(v2[k])
    requires forall k :: 0 <= k < |ws| ==> IsSpace(ws[k])
    requires line == genome + "." + v1 + ws + protein + "." + v2
    ensures var a := |genome|; var c := a + 1 + |v1|; var b := c + |ws|; var f := b + |protein|;
      |line| == f + 1 + |v2|
      && line[..a] == genome && line[b..f] == protein
      && (forall k :: 0 <= k < a ==> line[k] != '\n' && line[k] != '.')
      && (forall k :: a + 1 <= k < c ==> IsDigit(line[k]))
      && (forall k :: c <= k < b ==> IsSpace(line[k]))
      && (forall k :: b <= k < f ==> line[k] != '\n' && line[k] != '.')
      && !IsSpace(line[b]) && !IsDigit(line[c])
      && VersionAt(line, a) && VersionAt(line, f) && line[a - 1] != '\n'
  {
    var a := |genome|;
    var c := a + 1 + |v1|;
    var b := c + |ws|;
    var f := b + |protein|;
    assert forall k :: 0 <= k < a ==> line[k] == genome[k];
    assert forall k :: a + 1 <= k < c ==> line[k] == v1[k - a - 1];
    assert forall k :: c <= k < b ==> line[k] == ws[k - c];
    assert forall k :: b <= k < f ==> line[k] == protein[k - b];
    assert line[a] == '.' && line[f] == '.' && line[f + 1] == v2[0];
  }

  lemma TailFirst(s: string, c: nat, w: nat, f: nat)
    requires 1 <= w && c + w < |s| && LazyEnd(s, c + w, c + w + 1) == Some(f)
    ensures Tail(s, c, w) == Some((c + w, f))
  {
  }

  lemma RestIs(s: string, a: nat, c: nat, w: nat, b: nat, f: nat)
    requires VersionAt(s, a) && c == a + 1 + DigitRun(s, a + 1) && SpaceRun(s, c) == w && w >= 1
    requires c + w <= |s| && Tail(s, c, w) == Some((b, f))
    ensures Rest(s, a) == Some((b, f))
  {
  }

  lemma FirstAt(s: string, a: nat, b: nat, f: nat)
    requires 1 <= a <= |s| && s[a - 1] != '\n' && Rest(s, a) == Some((b, f))
    ensures FirstFrom(s, a) == Some((a, b, f))
    ensures s != [] ==> FirstFrom(s, 1) == FirstFrom(s, a) ==> MatchPair(s) == Some((s[..a], s[b..f]))
  {
  }
}
