/// `gb_feature_x.parse`: a line state machine over a GenBank feature table
/// that writes `feature<TAB>protein_id` for every feature whose product is
/// the surface glycoprotein. The three patterns are matched at the start of
/// the stripped line, ignoring case.
module GbFeatureX {
  import opened Results
  import opened Text

  /** The lower-case word `w` starts at `i`, in any case. */
  predicate WordAt(s: string, i: nat, w: string) {
    i + |w| <= |s| && Lower(s[i..i + |w|]) == w
  }

  /** `(?:gb|dbj)\|` at `i`: the index after the bar. */
  function DbTag(s: string, i: nat): (r: Option<nat>)
    ensures r.Some? ==> i < r.value <= |s|
  {
    if WordAt(s, i, "gb|") then Some(i + 3)
    else if WordAt(s, i, "dbj|") then Some(i + 4)
    else None
  }

  /** The last `|` of `line` after its first character. */
  function LastBar(line: string): (r: Option<nat>)
    ensures r.Some? ==> 1 <= r.value < |line| && line[r.value] == '|'
    ensures r.Some? ==> forall q :: r.value < q < |line| ==> line[q] != '|'
    ensures r.None? ==> forall q :: 1 <= q < |line| ==> line[q] != '|'
  {
    if |line| <= 1 then None
    else if line[|line| - 1] == '|' then Some(|line| - 1)
    else LastBar(line[..|line| - 1])
  }

  /** A greedy `(.+)\|` at `g`: the group runs to the last bar of the rest
      of the line. */
  function BarredGroup(s: string, g: nat): (r: Option<string>)
    requires g <= |s|
    ensures r.Some? ==> r.value != [] && '\n' !in r.value
  {
    var rest := FirstLine(s[g..]);
    match LastBar(rest)
    case None => None
    case Some(p) => Some(rest[..p])
  }

  /** `FEATURE_RE.match(line)`: `>`, optional whitespace, `Feature`,
      whitespace, `gb|` or `dbj|`, then the accession up to the last bar. */
  function FeatureMatch(line: string): Option<string> {
    if line == [] || line[0] != '>' then None
    else
      var i := 1 + SpaceRun(line, 1);
      if !WordAt(line, i, "feature") then None
      else
        var w := SpaceRun(line, i + 7);
        if w == 0 then None
        else match DbTag(line, i + 7 + w)
          case None => None
          case Some(g) => BarredGroup(line, g)
  }

  /** `TARGET_RE.match(line)`. */
  predicate TargetMatch(line: string) {
    WordAt(line, 0, "product")
    && var w1 := SpaceRun(line, 7);
    w1 > 0 && WordAt(line, 7 + w1, "surface")
    && var w2 := SpaceRun(line, 14 + w1);
    w2 > 0 && WordAt(line, 14 + w1 + w2, "glycoprotein")
  }

  /** `PROTEIN_ID_RE.match(line)`. */
  function ProteinMatch(line: string): Option<string> {
    if !WordAt(line, 0, "protein_id") then None
    else
      var w := SpaceRun(line, 10);
      if w == 0 then None
      else match DbTag(line, 10 + w)
        case None => None
        case Some(g) => BarredGroup(line, g)
  }

  /** `current_feature`, `saw_target` and the pairs written so far. */
  datatype State = State(feature: Option<string>, sawTarget: bool, out: seq<string>)

  /** The loop body for one line. */
  function Step(st: State, raw: string): State {
    var line := Strip(raw);
    if line == [] then st
    else match FeatureMatch(line)
      case Some(f) => State(Some(f), false, st.out)
      case None =>
        if st.feature.None? then st
        else if TargetMatch(line) then st.(sawTarget := true)
        else match ProteinMatch(line)
          case Some(p) =>
            if st.sawTarget then State(None, false, st.out + [st.feature.value + "\t" + p]) else st
          case None => st
  }

  function Run(lines: seq<string>): State {
    if lines == [] then State(None, false, [])
    else Step(Run(lines[..|lines| - 1]), lines[|lines| - 1])
  }

  lemma {:induction false} RunStep(lines: seq<string>, i: nat)
    requires i < |lines|
    ensures Run(lines[..i + 1]) == Step(Run(lines[..i]), lines[i])
  {
    assert lines[..i + 1][..i] == lines[..i];
  }

  method Parse(lines: seq<string>) returns (out: seq<string>, counter: nat)
    ensures out == Run(lines).out && counter == |out|
  {
    var currentFeature: Option<string> := None;
    var sawTarget := false;
    out := [];
    counter := 0;
    var i := 0;
    assert lines[..0] == [];
    assert State(currentFeature, sawTarget, out) == Run(lines[..0]);
    while i < |lines|
      invariant 0 <= i <= |lines|
      invariant State(currentFeature, sawTarget, out) == Run(lines[..i]) && counter == |out|
    {
      RunStep(lines, i);
      ghost var st := State(currentFeature, sawTarget, out);
      var line := Strip(lines[i]);
      if line != [] {
        var featM := FeatureMatch(line);
        if featM.Some? {
          currentFeature := featM;
          sawTarget := false;
        } else {
          if currentFeature.Some? {
            if TargetMatch(line) {
              sawTarget := true;
            } else {
              var proteinM := ProteinMatch(line);
              if sawTarget && proteinM.Some? {
                out := out + [currentFeature.value + "\t" + proteinM.value];
                counter := counter + 1;
                sawTarget := false;
                currentFeature := None;
              }
            }
          }
        }
      }
      assert State(currentFeature, sawTarget, out) == Step(st, lines[i]);
      i := i + 1;
    }
    assert lines[..i] == lines;
  }

  /** A header line: its stripped form matches `FEATURE_RE`. */
  predicate IsHeader(raw: string) {
    Strip(raw) != [] && FeatureMatch(Strip(raw)).Some?
  }

  function HeaderCount(lines: seq<string>): nat {
    if lines == [] then 0
    else HeaderCount(lines[..|lines| - 1]) + if IsHeader(lines[|lines| - 1]) then 1 else 0
  }

  /** One line emits at most one pair, only from a state with a feature and
      the target flag set, and then clears both; only a header sets a
      feature. */
  lemma StepEmits(st: State, raw: string)
    ensures |Step(st, raw).out| <= |st.out| + 1
    ensures st.out <= Step(st, raw).out
    ensures |Step(st, raw).out| == |st.out| + 1 ==>
      st.feature.Some? && st.sawTarget && !IsHeader(raw)
      && Step(st, raw).feature.None? && !Step(st, raw).sawTarget
    ensures Step(st, raw).feature.Some? && st.feature.None? ==> IsHeader(raw)
  {
  }

  /** Pairs written plus a pending feature never outnumber the headers
      read: at most one pair per header. */
  lemma {:induction false} AtMostOnePairPerHeader(lines: seq<string>)
    ensures |Run(lines).out| + (if Run(lines).feature.Some? then 1 else 0) <= HeaderCount(lines)
  {
    if lines != [] {
      var n := |lines| - 1;
      AtMostOnePairPerHeader(lines[..n]);
      StepEmits(Run(lines[..n]), lines[n]);
    }
  }

  /** Before the first header nothing happens. */
  lemma {:induction false} NothingBeforeHeader(lines: seq<string>)
    requires HeaderCount(lines) == 0
    ensures Run(lines) == State(None, false, [])
  {
    if lines != [] {
      var n := |lines| - 1;
      NothingBeforeHeader(lines[..n]);
      StepEmits(Run(lines[..n]), lines[n]);
    }
  }

  /** A header line starts a new feature and clears the target flag,
      whatever came before; writes nothing. */
  lemma HeaderResets(st: State, raw: string)
    requires IsHeader(raw)
    ensures Step(st, raw) == State(FeatureMatch(Strip(raw)), false, st.out)
  {
  }
}
