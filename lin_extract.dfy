/// `LinExtract.extract`: for every GenBank record, the accession version,
/// the organism name and the lineage (semicolons turned into tabs) are
/// written as one tab-separated line.
module LinExtract {
  import opened Results
  import opened Text
  import opened Folds

  datatype LinError =
    | OutputExists
      /** A `VERSION` line with fewer than two words (`x[1]` raises `IndexError`). */
    | MissingVersion(lineIndex: nat)

  /** `saw_org` and what has been written. */
  datatype State = State(sawOrg: bool, out: string)

  /** `re.sub(r';\s*', '\t', s)`. */
  function SemicolonsToTabs(s: string): (r: string)
    ensures ';' !in r
    decreases |s|
  {
    if s == [] then []
    else if s[0] == ';' then "\t" + SemicolonsToTabs(s[1 + SpaceRun(s, 1)..])
    else [s[0]] + SemicolonsToTabs(s[1..])
  }

  /** A lineage line inside the organism block. */
  function Lineage(line: string): string {
    SemicolonsToTabs(Strip(line))
  }

  /** `line[12:]`. */
  function FromColumn12(line: string): string {
    if |line| <= 12 then [] else line[12..]
  }

  /** The loop body for one line. */
  function Step(st: State, line: string, k: nat): Result<State, LinError> {
    if st.sawOrg then
      if StartsWith(line, " ") then
        var l := Lineage(line);
        if l != [] && l[|l| - 1] == '.' then Success(State(false, st.out + l[..|l| - 1] + "\n"))
        else Success(State(true, st.out + l))
      else Success(State(false, st.out))
    else if StartsWith(line, "VERSION") then
      var x := SplitSpace(line);
      if |x| < 2 then Failure(MissingVersion(k))
      else Success(State(false, st.out + x[1] + "\t"))
    else if StartsWith(line, "  ORGANISM") then
      Success(State(true, st.out + Strip(FromColumn12(line)) + "\t"))
    else Success(st)
  }

  function LineStep(): (State, string, nat) -> Result<State, LinError> {
    (st: State, line: string, k: nat) => Step(st, line, k)
  }

  function Scan(lines: seq<string>): Result<State, LinError> {
    Fold(lines, State(false, []), LineStep())
  }

  /** `extract`: an existing output file stops the run before anything is
      read. */
  function Extract(lines: seq<string>, outputExists: bool): Result<string, LinError> {
    if outputExists then Failure(OutputExists)
    else match Scan(lines)
      case Success(st) => Success(st.out)
      case Failure(e) => Failure(e)
  }

  lemma {:induction false} ScanStep(lines: seq<string>, i: nat, st: State)
    requires i < |lines| && Scan(lines[..i]) == Success(st)
    ensures Scan(lines[..i + 1]) == Step(st, lines[i], i)
  {
    assert lines[..i + 1][..i] == lines[..i];
  }

  /** One pass of the loop body over `line`, the `k`-th line. */
  method ProcessLine(sawOrg: bool, out: string, line: string, k: nat) returns (r: Result<State, LinError>)
    ensures r == Step(State(sawOrg, out), line, k)
  {
    if sawOrg {
      if StartsWith(line, " ") {
        var l := SemicolonsToTabs(Strip(line));
        if l != [] && l[|l| - 1] == '.' {
          l := l[..|l| - 1];
          return Success(State(false, out + l + "\n"));
        }
        return Success(State(true, out + l));
      }
      return Success(State(false, out));
    } else if StartsWith(line, "VERSION") {
      var x := SplitSpace(line);
      if |x| < 2 {
        return Failure(MissingVersion(k));
      }
      return Success(State(false, out + x[1] + "\t"));
    } else if StartsWith(line, "  ORGANISM") {
      var tax := FromColumn12(line);
      return Success(State(true, out + Strip(tax) + "\t"));
    }
    return Success(State(sawOrg, out));
  }

  method ExtractLines(lines: seq<string>, outputExists: bool) returns (r: Result<string, LinError>)
    ensures r == Extract(lines, outputExists)
  {
    if outputExists {
      return Failure(OutputExists);
    }
    var sawOrg := false;
    var out: string := [];
    var i := 0;
    assert lines[..0] == [];
    assert Scan(lines[..0]) == Success(State(sawOrg, out));
    while i < |lines|
      invariant 0 <= i <= |lines|
      invariant Scan(lines[..i]) == Success(State(sawOrg, out))
    {
      ScanStep(lines, i, State(sawOrg, out));
      var next := ProcessLine(sawOrg, out, lines[i], i);
      if next.Failure? {
        FoldFailureStays(lines, i + 1, State(false, []), LineStep());
        return Failure(next.error);
      }
      sawOrg, out := next.value.sawOrg, next.value.out;
      assert Scan(lines[..i + 1]) == Success(State(sawOrg, out));
      i := i + 1;
    }
    assert lines[..i] == lines;
    r := Success(out);
  }

  /** A `VERSION` line outside the organism block writes its second word and
      a tab, and fails when there is none. */
  lemma VersionLine(st: State, line: string, k: nat)
    requires !st.sawOrg && StartsWith(line, "VERSION")
    ensures |SplitSpace(line)| >= 2 ==> Step(st, line, k) == Success(State(false, st.out + SplitSpace(line)[1] + "\t"))
    ensures |SplitSpace(line)| < 2 <==> Step(st, line, k).Failure?
  {
  }

  /** An `  ORGANISM` line writes the trimmed text from column 12 and a tab,
      and opens the organism block. */
  lemma OrganismLine(st: State, line: string, k: nat)
    requires !st.sawOrg && StartsWith(line, "  ORGANISM")
    ensures Step(st, line, k) == Success(State(true, st.out + Strip(FromColumn12(line)) + "\t"))
  {
    assert !StartsWith(line, "VERSION") by {
      assert line[0] == ' ';
    }
  }

  /** Inside the block, an indented line is written with its semicolons
      turned into tabs; one ending in `.` loses the dot, ends the output line
      and closes the block. A line that is not indented only closes the
      block, even a `VERSION` line. */
  lemma OrganismBlock(st: State, line: string, k: nat)
    requires st.sawOrg
    ensures Step(st, line, k).Success?
    ensures !StartsWith(line, " ") ==> Step(st, line, k) == Success(State(false, st.out))
    ensures StartsWith(line, " ") ==>
      var l := Lineage(line);
      Step(st, line, k).value.out == st.out + (if l != [] && l[|l| - 1] == '.' then l[..|l| - 1] + "\n" else l)
      && (Step(st, line, k).value.sawOrg <==> !(l != [] && l[|l| - 1] == '.'))
  {
  }

  /** The run fails exactly when some `VERSION` line outside an organism
      block lacks a second word, and an existing output file wins over
      everything. */
  lemma ExtractFailsOnlyOnVersion(lines: seq<string>, outputExists: bool)
    ensures outputExists ==> Extract(lines, outputExists) == Failure(OutputExists)
    ensures Extract(lines, outputExists).Failure? && !outputExists ==>
      Extract(lines, outputExists).error.MissingVersion? &&
      var k := Extract(lines, outputExists).error.lineIndex;
      k < |lines| && StartsWith(lines[k], "VERSION") && |SplitSpace(lines[k])| < 2
  {
    if !outputExists && Scan(lines).Failure? {
      ScanFailure(lines);
    }
  }

  lemma {:induction false} ScanFailure(lines: seq<string>)
    requires Scan(lines).Failure?
    ensures Scan(lines).error.MissingVersion?
    ensures var k := Scan(lines).error.lineIndex;
      k < |lines| && StartsWith(lines[k], "VERSION") && |SplitSpace(lines[k])| < 2
  {
    var n := |lines| - 1;
    var prefix := lines[..n];
    var prev := Scan(prefix);
    assert Scan(lines) == match prev case Failure(e) => Failure(e) case Success(st) => Step(st, lines[n], n);
    if prev.Failure? {
      ScanFailure(prefix);
    } else {
      var st := prev.value;
      assert !st.sawOrg && StartsWith(lines[n], "VERSION");
    }
  }

  /** Semicolons and the whitespace after them become single tabs; text
      without semicolons is kept as it is. */
  /** The fields between semicolons, every field after the first without its
      leading whitespace, joined by tabs: what replacing each `;\s*` by a tab
      amounts to. */
  function FieldsJoinedByTabs(s: string): string {
    var parts := Split(s, ";");
    Join([parts[0]] + TrimLeftAll(parts[1..]), "\t")
  }

  /** Each field without its leading whitespace. */
  function TrimLeftAll(ps: seq<string>): (r: seq<string>)
    ensures |r| == |ps|
  {
    if ps == [] then [] else [TrimLeft(ps[0])] + TrimLeftAll(ps[1..])
  }

  /** The substitution equals the split, trim and join of the fields. */
  lemma {:induction false} SemicolonsToTabsIsFieldJoin(s: string)
    ensures SemicolonsToTabs(s) == FieldsJoinedByTabs(s)
    decreases |s|
  {
    if ';' !in s {
      NoSemicolonUnchanged(s);
      OneField(s);
    } else {
      var x, y := FirstCut(s);
      SubstitutionStep(x, y);
      FieldStep(x, y);
      SemicolonsToTabsIsFieldJoin(TrimLeft(y));
    }
  }

  /** Text without ';' is its own only field. */
  lemma OneField(s: string)
    requires ';' !in s
    ensures FieldsJoinedByTabs(s) == s
  {
    SplitWhole(s);
    assert [s][1..] == [];
    assert [s] + TrimLeftAll([]) == [s];
  }

  /** The substitution copies the text before the first ';', writes a tab,
      and goes on after the whitespace that follows the ';'. */
  lemma SubstitutionStep(x: string, y: string)
    requires ';' !in x
    ensures SemicolonsToTabs(x + [';'] + y) == x + "\t" + SemicolonsToTabs(TrimLeft(y))
  {
    CopiedPrefix(x, [';'] + y);
    assert x + [';'] + y == x + ([';'] + y);
    SkippedRun(y);
  }

  /** The fields of the text are the text before the first ';' and the
      fields of the rest, the first of them trimmed. */
  lemma FieldStep(x: string, y: string)
    requires ';' !in x
    ensures FieldsJoinedByTabs(x + [';'] + y) == x + "\t" + FieldsJoinedByTabs(TrimLeft(y))
  {
    SplitFirst(x, ';', y);
    assert ";" == [';'];
    SplitTrimLeft(y);
    JoinFields(x, Split(y, ";"), Split(TrimLeft(y), ";"));
  }

  /** The join of a first field and the trimmed fields of the rest. */
  lemma JoinFields(x: string, q: seq<string>, qt: seq<string>)
    requires |q| >= 1 && qt == [TrimLeft(q[0])] + q[1..]
    ensures Join([x] + TrimLeftAll(([x] + q)[1..]), "\t") == x + "\t" + Join([qt[0]] + TrimLeftAll(qt[1..]), "\t")
  {
    assert ([x] + q)[1..] == q;
    TrimmedFieldsAgree(q, qt);
    JoinCons(x, TrimLeftAll(q));
  }

  lemma TrimmedFieldsAgree(q: seq<string>, qt: seq<string>)
    requires |q| >= 1 && qt == [TrimLeft(q[0])] + q[1..]
    ensures [qt[0]] + TrimLeftAll(qt[1..]) == TrimLeftAll(q)
  {
    assert qt[1..] == q[1..];
  }

  lemma JoinCons(x: string, r: seq<string>)
    requires |r| >= 1
    ensures Join([x] + r, "\t") == x + "\t" + Join(r, "\t")
  {
    assert ([x] + r)[1..] == r;
  }

  /** A prefix without ';' is copied unchanged. */
  lemma {:induction false} CopiedPrefix(x: string, v: string)
    requires ';' !in x
    ensures SemicolonsToTabs(x + v) == x + SemicolonsToTabs(v)
    decreases |x|
  {
    if x != [] {
      assert (x + v)[1..] == x[1..] + v;
      CopiedPrefix(x[1..], v);
    } else {
      assert x + v == v;
    }
  }

  /** A ';' and the whitespace after it become one tab. */
  lemma SkippedRun(y: string)
    ensures SemicolonsToTabs([';'] + y) == "\t" + SemicolonsToTabs(TrimLeft(y))
  {
    var s := [';'] + y;
    SpaceRunIsLeading(y);
    assert s[1 + SpaceRun(s, 1)..] == TrimLeft(y);
  }

  /** The whitespace run after the ';' is the leading whitespace of the rest. */
  lemma {:induction false} SpaceRunIsLeading(y: string)
    ensures SpaceRun([';'] + y, 1) == |y| - |TrimLeft(y)|
    decreases |y|
  {
    var s := [';'] + y;
    if y != [] && IsSpace(y[0]) {
      SpaceRunShift(s, y);
      SpaceRunIsLeading(y[1..]);
    }
  }

  /** Dropping one leading blank of the rest shifts the run by one. */
  lemma SpaceRunShift(s: string, y: string)
    requires s == [';'] + y && y != [] && IsSpace(y[0])
    ensures SpaceRun(s, 1) == 1 + SpaceRun([';'] + y[1..], 1)
  {
    SpaceRunSuffix(s, 2, [';'] + y[1..], 1);
  }

  /** A run depends only on the text from where it starts. */
  lemma {:induction false} SpaceRunSuffix(s: string, i: nat, u: string, j: nat)
    requires i <= |s| && j <= |u| && s[i..] == u[j..]
    ensures SpaceRun(s, i) == SpaceRun(u, j)
    decreases |s| - i
  {
    if i < |s| {
      assert s[i] == s[i..][0] == u[j..][0] == u[j];
      assert s[i + 1..] == s[i..][1..] == u[j..][1..] == u[j + 1..];
      SpaceRunSuffix(s, i + 1, u, j + 1);
    }
  }

  /** Trimming the leading whitespace of a text trims only its first field. */
  lemma SplitTrimLeft(y: string)
    ensures var q := Split(y, ";");
      Split(TrimLeft(y), ";") == [TrimLeft(q[0])] + q[1..]
  {
    assert ";" == [';'];
    if ';' !in y {
      SplitWhole(y);
      SplitWhole(TrimLeft(y));
    } else {
      var u, v := FirstCut(y);
      SplitFirst(u, ';', v);
      SplitTrimLeftCut(u, v);
    }
  }

  /** A text without ';' is one field. */
  lemma SplitWhole(y: string)
    requires ';' !in y
    ensures Split(y, ";") == [y]
  {
    assert ";" == [';'];
    NoOccurrence(y, ';');
  }

  /** A text with a ';' is the text before its first ';', the ';', and the rest. */
  lemma FirstCut(y: string) returns (u: string, v: string)
    requires ';' in y
    ensures ';' !in u && y == u + [';'] + v
  {
    assert ";" == [';'];
    var i := Find(y, ";");
    if i < 0 {
      Absent(y, ';');
      assert false;
    }
    BeforeFirst(y, ';');
    u, v := y[..i], y[i + 1..];
    assert y == u + [';'] + v;
  }

  lemma SplitTrimLeftCut(u: string, v: string)
    requires ';' !in u
    ensures Split(TrimLeft(u + [';'] + v), ";") == [TrimLeft(u)] + Split(v, ";")
  {
    var tu := TrimLeft(u);
    var w := TrimLeft(u + [';'] + v);
    TrimLeftStops(u, ';', v);
    SuffixAbsent(u, |u| - |tu|, ';');
    SplitOfCut(w, tu, v);
  }

  lemma SplitOfCut(w: string, x: string, v: string)
    requires w == x + [';'] + v && ';' !in x
    ensures Split(w, ";") == [x] + Split(v, ";")
  {
    SplitFirst(x, ';', v);
    assert ";" == [';'];
  }

  lemma SuffixAbsent(u: string, k: nat, c: char)
    requires k <= |u| && c !in u
    ensures c !in u[k..]
  {
    forall j | 0 <= j < |u| - k
      ensures u[k..][j] != c
    {
      assert u[k..][j] == u[k + j];
    }
  }

  /** Leading whitespace ends before a non-blank. */
  lemma {:induction false} TrimLeftStops(u: string, c: char, v: string)
    requires !IsSpace(c)
    ensures TrimLeft(u + [c] + v) == TrimLeft(u) + [c] + v
    decreases |u|
  {
    var w := u + [c] + v;
    if u == [] {
      assert w == [c] + v && w[0] == c;
      assert TrimLeft(w) == w;
    } else if IsSpace(u[0]) {
      assert w[0] == u[0] && w[1..] == u[1..] + [c] + v;
      assert TrimLeft(w) == TrimLeft(w[1..]);
      assert TrimLeft(u) == TrimLeft(u[1..]);
      TrimLeftStops(u[1..], c, v);
    } else {
      assert w[0] == u[0];
      assert TrimLeft(w) == w && TrimLeft(u) == u;
    }
  }

  lemma {:induction false} NoSemicolonUnchanged(s: string)
    requires ';' !in s
    ensures SemicolonsToTabs(s) == s
  {
    if s != [] {
      NoSemicolonUnchanged(s[1..]);
    }
  }
}
