/// host_analyzer.py: `HostAnalyzer.read` reconciles the host names of a
/// source table against a target table of bird taxa. Every avian source row
/// is tried against a fixed list of lookup rules; the first rule whose lookup
/// finds a target row decides, one counter per rule is incremented, and a
/// match line (or, for a lookup that finds several rows, only the
/// multiple-match counter) is written; rows no rule matches are counted and
/// written to the no-match output.
///
/// Cells are given as the text `str(cell)` produces ("nan" for a missing
/// source cell); a missing target cell is `None`, which no lookup equals.
module HostAnalyzer {
  import opened Results
  import opened Text

  /** `clean_str`: "NA" for an empty string or any casing of "nan",
      otherwise every whitespace run collapsed to one blank. */
  function CleanStr(s: string): (r: string)
    ensures (s == [] || Lower(s) == "nan") ==> r == "NA"
    ensures !(s == [] || Lower(s) == "nan") ==> r == CollapseSpace(s) && r != []
  {
    if s == [] || Lower(s) == "nan" then "NA" else CollapseSpace(s)
  }

  /** A collapsed string starts like the original when that starts with a
      non-blank, and starts with a blank otherwise. */
  lemma CollapseSpaceHead(s: string)
    requires s != []
    ensures CollapseSpace(s) != []
    ensures IsSpace(s[0]) ==> CollapseSpace(s)[0] == ' '
    ensures !IsSpace(s[0]) ==> CollapseSpace(s)[0] == s[0]
  {
  }

  /** After collapsing, the only whitespace is single blanks. */
  lemma {:induction false} CollapseSpaceSingle(s: string)
    ensures forall i :: 0 <= i < |CollapseSpace(s)| && IsSpace(CollapseSpace(s)[i]) ==>
              CollapseSpace(s)[i] == ' ' && (i + 1 < |CollapseSpace(s)| ==> !IsSpace(CollapseSpace(s)[i + 1]))
    decreases |s|
  {
    if s != [] {
      var r := CollapseSpace(s);
      if IsSpace(s[0]) {
        var t := TrimLeft(s);
        CollapseSpaceSingle(t);
        if t != [] {
          CollapseSpaceHead(t);
        }
        assert r == [' '] + CollapseSpace(t);
      } else {
        CollapseSpaceSingle(s[1..]);
        if s[1..] != [] {
          CollapseSpaceHead(s[1..]);
        }
        assert r == [s[0]] + CollapseSpace(s[1..]);
      }
    }
  }

  /** The output of `clean_str` on a non-missing string holds no whitespace
      other than single blanks. */
  lemma CleanStrSingleBlanks(s: string)
    ensures forall i :: 0 <= i < |CleanStr(s)| && IsSpace(CleanStr(s)[i]) ==>
              CleanStr(s)[i] == ' ' && (i + 1 < |CleanStr(s)| ==> !IsSpace(CleanStr(s)[i + 1]))
  {
    if !(s == [] || Lower(s) == "nan") {
      CollapseSpaceSingle(s);
    } else {
      assert CleanStr(s) == "NA";
      assert !IsSpace('N') && !IsSpace('A');
    }
  }

  // ---------------------------------------------------------------------------
  // The two patterns

  /** The index of the last `c` in `s`, or -1. */
  function LastIndex(s: string, c: char): (q: int)
    ensures -1 <= q < |s|
    ensures q >= 0 ==> s[q] == c
    ensures forall j :: q < j < |s| ==> s[j] != c
  {
    if s == [] then -1
    else if s[|s| - 1] == c then |s| - 1
    else LastIndex(s[..|s| - 1], c)
  }

  /** `(.+?)\s*\((.+)\)` can match with group 1 of length `k`: after the
      blanks that follow it comes a '(' at `p`, and the greedy group 2 runs
      to the last ')', which must leave it non-empty. */
  predicate ParenOpensAt(s: string, k: nat) {
    var p := k + SpaceRun(s, k);
    p < |s| && s[p] == '(' && LastIndex(s, ')') > p + 1
  }

  /** The two groups of that match, stripped. */
  function ParenGroups(s: string, k: nat): (string, string)
    requires 1 <= k <= |s| && ParenOpensAt(s, k)
  {
    var p := k + SpaceRun(s, k);
    (Strip(s[..k]), Strip(s[p + 1..LastIndex(s, ')')]))
  }

  /** The lazy group 1: the shortest length that lets the rest match. */
  function ParenSearch(s: string, k: nat): Option<(string, string)>
    requires 1 <= k
    decreases |s| - k
  {
    if k > |s| then None
    else if ParenOpensAt(s, k) then Some(ParenGroups(s, k))
    else ParenSearch(s, k + 1)
  }

  /** `re.search(PAREN_RE, s)` on a string without line breaks: a match, if
      any, can start at 0, because group 1 absorbs any prefix. */
  function ParenSplit(s: string): Option<(string, string)> {
    ParenSearch(s, 1)
  }

  /** `(.+?)\s*,\s*(.+)` can match with group 1 of length `k`: a ',' after
      the blanks that follow it, with at least one character after it. */
  predicate CommaOpensAt(s: string, k: nat) {
    var p := k + SpaceRun(s, k);
    p + 1 < |s| && s[p] == ','
  }

  /** The two groups, stripped: group 2 stripped is everything after the
      comma, stripped. */
  function CommaGroups(s: string, k: nat): (string, string)
    requires 1 <= k <= |s| && CommaOpensAt(s, k)
  {
    var p := k + SpaceRun(s, k);
    (Strip(s[..k]), Strip(s[p + 1..]))
  }

  function CommaSearch(s: string, k: nat): Option<(string, string)>
    requires 1 <= k
    decreases |s| - k
  {
    if k > |s| then None
    else if CommaOpensAt(s, k) then Some(CommaGroups(s, k))
    else CommaSearch(s, k + 1)
  }

  /** `re.search(COMMA_RE, s)` on a string without line breaks. */
  function CommaSplit(s: string): Option<(string, string)> {
    CommaSearch(s, 1)
  }

  lemma {:induction false} ParenSearchIff(s: string, k: nat)
    requires 1 <= k
    ensures ParenSearch(s, k).Some? <==>
              exists p :: k <= p < |s| && s[p] == '(' && LastIndex(s, ')') > p + 1
    decreases |s| - k
  {
    if k <= |s| {
      ParenSearchIff(s, k + 1);
      if ParenOpensAt(s, k) {
        var p := k + SpaceRun(s, k);
        assert k <= p < |s| && s[p] == '(' && LastIndex(s, ')') > p + 1;
      } else if k < |s| && s[k] == '(' {
        assert !IsSpace(s[k]);
        assert SpaceRun(s, k) == 0;
      }
    }
  }

  /** The parenthesis pattern matches exactly when some '(' after the first
      character has a ')' beyond the character that follows it. */
  lemma ParenSplitIff(s: string)
    ensures ParenSplit(s).Some? <==> exists p :: 1 <= p < |s| && s[p] == '(' && LastIndex(s, ')') > p + 1
  {
    ParenSearchIff(s, 1);
  }

  lemma {:induction false} CommaSearchIff(s: string, k: nat)
    requires 1 <= k
    ensures CommaSearch(s, k).Some? <==> exists p :: k <= p && p + 1 < |s| && s[p] == ','
    decreases |s| - k
  {
    if k <= |s| {
      CommaSearchIff(s, k + 1);
      if CommaOpensAt(s, k) {
        var p := k + SpaceRun(s, k);
        assert k <= p && p + 1 < |s| && s[p] == ',';
      }
    }
  }

  /** The comma pattern matches exactly when a ',' after the first character
      is followed by at least one more character. */
  lemma CommaSplitIff(s: string)
    ensures CommaSplit(s).Some? <==> exists p :: 1 <= p && p + 1 < |s| && s[p] == ','
  {
    CommaSearchIff(s, 1);
  }

  // ---------------------------------------------------------------------------
  // Lookups in the target table

  datatype Target = Target(sciName: Option<string>, commonName: Option<string>, order1: Option<string>,
                           family: Option<string>, host: Option<string>, menu1: Option<string>,
                           menu2: Option<string>, menu3: Option<string>)

  datatype Field = SciName | CommonName

  function FieldOf(t: Target, f: Field): Option<string> {
    match f
    case SciName => t.sciName
    case CommonName => t.commonName
  }

  /** The target cell equals the name, both lower-cased; a missing cell
      equals nothing. */
  predicate Equals(t: Target, f: Field, name: string) {
    FieldOf(t, f).Some? && Lower(FieldOf(t, f).value) == Lower(name)
  }

  /** `target_df.loc[target_df[field].str.lower() == name.lower()]`: the
      matching target rows, in table order. */
  function Hits(targets: seq<Target>, f: Field, name: string): (hits: seq<Target>)
    ensures |hits| <= |targets|
  {
    if targets == [] then []
    else
      var n := |targets| - 1;
      Hits(targets[..n], f, name) + (if Equals(targets[n], f, name) then [targets[n]] else [])
  }

  /** A target row is a hit exactly when its cell equals the name; the first
      hit is the first such row of the table. */
  lemma {:induction false} HitsMembers(targets: seq<Target>, f: Field, name: string)
    ensures forall t :: t in Hits(targets, f, name) <==> t in targets && Equals(t, f, name)
    ensures Hits(targets, f, name) != [] ==>
              exists i :: 0 <= i < |targets| && targets[i] == Hits(targets, f, name)[0]
                && forall j :: 0 <= j < i ==> !Equals(targets[j], f, name)
  {
    if targets != [] {
      var n := |targets| - 1;
      HitsMembers(targets[..n], f, name);
      assert targets == targets[..n] + [targets[n]];
      if Hits(targets[..n], f, name) == [] && Equals(targets[n], f, name) {
        assert forall j :: 0 <= j < n ==> !Equals(targets[j], f, name) by {
          forall j | 0 <= j < n ensures !Equals(targets[j], f, name) {
            assert targets[..n][j] == targets[j];
            assert targets[j] in targets[..n];
          }
        }
      }
      if Hits(targets[..n], f, name) != [] {
        var i :| 0 <= i < n && targets[..n][i] == Hits(targets[..n], f, name)[0]
                 && forall j :: 0 <= j < i ==> !Equals(targets[..n][j], f, name);
        assert targets[i] == Hits(targets, f, name)[0];
        assert forall j :: 0 <= j < i ==> targets[..n][j] == targets[j];
      }
    }
  }

  // ---------------------------------------------------------------------------
  // The rules

  datatype Rule =
    | SciToSci | SciToCommon
    | SciBeforeParenToSci | SciInParenToSci | SciBeforeParenToCommon | SciInParenToCommon
    | SciBeforeCommaToSci | SciAfterCommaToSci | SciBeforeCommaToCommon | SciAfterCommaToCommon
    | CommonToCommon | CommonToSci

  /** The match type written for a rule. */
  function Label(rule: Rule): string {
    match rule
    case SciToSci => "sci_to_sci"
    case SciToCommon => "sci_to_common"
    case SciBeforeParenToSci => "sci_before_paren_to_sci"
    case SciInParenToSci => "sci_in_paren_to_sci"
    case SciBeforeParenToCommon => "sci_before_paren_to_common"
    case SciInParenToCommon => "sci_in_paren_to_common"
    case SciBeforeCommaToSci => "sci_before_comma_to_sci"
    case SciAfterCommaToSci => "sci_after_comma_to_sci"
    case SciBeforeCommaToCommon => "sci_before_comma_to_common"
    case SciAfterCommaToCommon => "sci_after_comma_to_common"
    case CommonToCommon => "common_to_common"
    case CommonToSci => "common_to_sci"
  }

  /** The target column a rule looks in. */
  function TargetField(rule: Rule): Field {
    match rule
    case SciToSci | SciBeforeParenToSci | SciInParenToSci | SciBeforeCommaToSci | SciAfterCommaToSci
      | CommonToSci => SciName
    case _ => CommonName
  }

  predicate UsesCommonName(rule: Rule) {
    rule == CommonToCommon || rule == CommonToSci
  }

  /** A rule with the source name it looks up. */
  datatype Query = Query(rule: Rule, name: string)

  /** The parenthesis rules: the text before the '(' and the text inside,
      each against the scientific, then the common names. */
  function ParenQueries(sci: string): seq<Query> {
    match ParenSplit(sci)
    case Some((wo, inside)) =>
      [Query(SciBeforeParenToSci, wo), Query(SciInParenToSci, inside),
       Query(SciBeforeParenToCommon, wo), Query(SciInParenToCommon, inside)]
    case None => []
  }

  /** The comma rules, likewise. */
  function CommaQueries(sci: string): seq<Query> {
    match CommaSplit(sci)
    case Some((before, after)) =>
      [Query(SciBeforeCommaToSci, before), Query(SciAfterCommaToSci, after),
       Query(SciBeforeCommaToCommon, before), Query(SciAfterCommaToCommon, after)]
    case None => []
  }

  /** The common-name rules, only when enabled. */
  function CommonQueries(common: string, matchWithCommon: bool): seq<Query> {
    if matchWithCommon then [Query(CommonToCommon, common), Query(CommonToSci, common)] else []
  }

  /** The rules in the order `read` tries them, for a source row's names. */
  function Queries(sci: string, common: string, matchWithCommon: bool): seq<Query> {
    [Query(SciToSci, sci), Query(SciToCommon, sci)] + ParenQueries(sci) + CommaQueries(sci)
    + CommonQueries(common, matchWithCommon)
  }

  /** With the common-name option off, no rule tried uses the common name. */
  lemma QueriesWithoutCommon(sci: string, common: string)
    ensures forall i :: 0 <= i < |Queries(sci, common, false)| ==> !UsesCommonName(Queries(sci, common, false)[i].rule)
  {
    var ps, cs := ParenQueries(sci), CommaQueries(sci);
    assert forall i :: 0 <= i < |ps| ==> !UsesCommonName(ps[i].rule);
    assert forall i :: 0 <= i < |cs| ==> !UsesCommonName(cs[i].rule);
    assert Queries(sci, common, false) == [Query(SciToSci, sci), Query(SciToCommon, sci)] + ps + cs;
  }

  function HitsOf(targets: seq<Target>, q: Query): seq<Target> {
    Hits(targets, TargetField(q.rule), q.name)
  }

  /** The deciding rule and the target rows it found. */
  datatype Hit = Hit(rule: Rule, rows: seq<Target>)

  /** The first query whose lookup finds something. */
  function FirstHit(targets: seq<Target>, qs: seq<Query>): Option<Hit> {
    if qs == [] then None
    else
      var n := |qs| - 1;
      var h := FirstHit(targets, qs[..n]);
      if h.Some? then h
      else if HitsOf(targets, qs[n]) != [] then Some(Hit(qs[n].rule, HitsOf(targets, qs[n])))
      else None
  }

  lemma FirstHitSnoc(targets: seq<Target>, qs: seq<Query>, q: Query)
    ensures FirstHit(targets, qs + [q]) ==
              if FirstHit(targets, qs).Some? then FirstHit(targets, qs)
              else if HitsOf(targets, q) != [] then Some(Hit(q.rule, HitsOf(targets, q)))
              else None
  {
    assert (qs + [q])[..|qs|] == qs;
  }

  lemma {:induction false} FirstHitKeeps(targets: seq<Target>, qs: seq<Query>, more: seq<Query>)
    requires FirstHit(targets, qs).Some?
    ensures FirstHit(targets, qs + more) == FirstHit(targets, qs)
    decreases |more|
  {
    if more == [] {
      assert qs + more == qs;
    } else {
      var n := |more| - 1;
      FirstHitKeeps(targets, qs, more[..n]);
      assert qs + more == (qs + more[..n]) + [more[n]];
      FirstHitSnoc(targets, qs + more[..n], more[n]);
    }
  }

  /** First hit wins: a rule decides exactly when some rule finds a target
      row, and the deciding rule is the first that does. */
  lemma {:induction false} FirstHitWins(targets: seq<Target>, qs: seq<Query>)
    ensures FirstHit(targets, qs).Some? <==> exists i :: 0 <= i < |qs| && HitsOf(targets, qs[i]) != []
    ensures FirstHit(targets, qs).Some? ==>
              exists i :: 0 <= i < |qs| && FirstHit(targets, qs).value == Hit(qs[i].rule, HitsOf(targets, qs[i]))
                && HitsOf(targets, qs[i]) != []
                && forall j :: 0 <= j < i ==> HitsOf(targets, qs[j]) == []
  {
    if qs != [] {
      var n := |qs| - 1;
      FirstHitWins(targets, qs[..n]);
      assert forall j :: 0 <= j < n ==> qs[..n][j] == qs[j];
      if FirstHit(targets, qs[..n]).Some? {
        var i :| 0 <= i < n && FirstHit(targets, qs[..n]).value == Hit(qs[..n][i].rule, HitsOf(targets, qs[..n][i]))
                 && HitsOf(targets, qs[..n][i]) != []
                 && forall j :: 0 <= j < i ==> HitsOf(targets, qs[..n][j]) == [];
        assert FirstHit(targets, qs).value == Hit(qs[i].rule, HitsOf(targets, qs[i]));
      }
    }
  }

  // ---------------------------------------------------------------------------
  // The row loop

  datatype SourceRow = SourceRow(hostName: string, hostCommonName: string, hostGroup: string)

  /** `LIMIT_SOURCE_HOST_GROUP.lower()`; the group is non-empty, so the
      filter always applies. */
  const LimitHostGroup := "avian"

  /** A source row is considered when its stripped, lower-cased host group
      is the limit group. */
  predicate Considered(r: SourceRow) {
    Lower(Strip(r.hostGroup)) == LimitHostGroup
  }

  /** The source names as the rules see them: stripped, whitespace runs
      collapsed. */
  function SourceSci(r: SourceRow): string {
    CollapseSpace(Strip(r.hostName))
  }

  function SourceCommon(r: SourceRow): string {
    CollapseSpace(Strip(r.hostCommonName))
  }

  function CellText(c: Option<string>): string {
    match c
    case Some(s) => s
    case None => "nan"
  }

  /** The eleven cells of a match line: the cleaned source names, the match
      type and eight cleaned cells of the first target row found. */
  function MatchFields(sci: string, common: string, rule: Rule, t: Target): seq<string> {
    [CleanStr(sci), CleanStr(common), Label(rule),
     CleanStr(CellText(t.sciName)), CleanStr(CellText(t.commonName)),
     CleanStr(CellText(t.order1)), CleanStr(CellText(t.family)),
     CleanStr(CellText(t.host)), CleanStr(CellText(t.menu1)),
     CleanStr(CellText(t.menu2)), CleanStr(CellText(t.menu3))]
  }

  /** A cleaned cell holds no tab: its only whitespace is single blanks. */
  lemma CleanStrNoTab(s: string)
    ensures '\t' !in CleanStr(s)
  {
    CleanStrSingleBlanks(s);
    assert IsSpace('\t');
  }

  /** No cell of a match line holds a tab. */
  lemma MatchFieldsNoTab(sci: string, common: string, rule: Rule, t: Target)
    ensures forall k :: 0 <= k < |MatchFields(sci, common, rule, t)| ==> '\t' !in MatchFields(sci, common, rule, t)[k]
  {
    var f := MatchFields(sci, common, rule, t);
    forall k | 0 <= k < |f|
      ensures '\t' !in f[k]
    {
      if k == 0 { CleanStrNoTab(sci); }
      else if k == 1 { CleanStrNoTab(common); }
      else if k == 2 { LabelNoTab(rule); }
      else if k == 3 { CleanStrNoTab(CellText(t.sciName)); }
      else if k == 4 { CleanStrNoTab(CellText(t.commonName)); }
      else if k == 5 { CleanStrNoTab(CellText(t.order1)); }
      else if k == 6 { CleanStrNoTab(CellText(t.family)); }
      else if k == 7 { CleanStrNoTab(CellText(t.host)); }
      else if k == 8 { CleanStrNoTab(CellText(t.menu1)); }
      else if k == 9 { CleanStrNoTab(CellText(t.menu2)); }
      else { CleanStrNoTab(CellText(t.menu3)); }
    }
  }

  /** No rule label holds a tab. */
  lemma LabelNoTab(rule: Rule)
    ensures '\t' !in Label(rule)
  {
    match rule
    case SciToSci =>
    case SciToCommon =>
    case SciBeforeParenToSci =>
    case SciInParenToSci =>
    case SciBeforeParenToCommon =>
    case SciInParenToCommon =>
    case SciBeforeCommaToSci =>
    case SciAfterCommaToSci =>
    case SciBeforeCommaToCommon =>
    case SciAfterCommaToCommon =>
    case CommonToCommon =>
    case CommonToSci =>
  }

  /** A line of tab-free cells joined by tabs, read back without its newline,
      splits into those cells. */
  lemma TabLineSplits(fields: seq<string>)
    requires |fields| >= 1
    requires forall k :: 0 <= k < |fields| ==> '\t' !in fields[k]
    ensures var r := Join(fields, "\t") + "\n"; r[|r| - 1] == '\n' && Split(r[..|r| - 1], "\t") == fields
  {
    SplitJoin(fields, '\t');
    var line := Join(fields, "\t");
    assert (line + "\n")[..|line|] == line;
  }

  /** `write_match`: the cells joined by tabs, then a newline. Read back,
      the line splits on tabs into exactly its eleven cells, since no cell
      holds a tab. */
  function MatchLine(sci: string, common: string, rule: Rule, t: Target): (r: string)
    ensures |r| > 0 && r[|r| - 1] == '\n'
    ensures Split(r[..|r| - 1], "\t") == MatchFields(sci, common, rule, t)
  {
    MatchFieldsNoTab(sci, common, rule, t);
    TabLineSplits(MatchFields(sci, common, rule, t));
    Join(MatchFields(sci, common, rule, t), "\t") + "\n"
  }

  /** `write_no_match`: the two cleaned source names, tab-separated. */
  function NoMatchLine(sci: string, common: string): (r: string)
    ensures |r| > 0 && r[|r| - 1] == '\n'
    ensures Split(r[..|r| - 1], "\t") == [CleanStr(sci), CleanStr(common)]
  {
    CleanStrNoTab(sci);
    CleanStrNoTab(common);
    TabLineSplits([CleanStr(sci), CleanStr(common)]);
    assert Join([CleanStr(sci), CleanStr(common)], "\t") == CleanStr(sci) + "\t" + CleanStr(common);
    CleanStr(sci) + "\t" + CleanStr(common) + "\n"
  }

  const MatchHeader := "SOURCE_SCI_NAME\tSOURCE_COMMON_NAME\tMATCH_TYPE\tSCI_NAME\tPRIMARY_COM_NAME\tORDER1\tFAMILY\tHOST\tMENU1\tMENU2\tMENU3\n"
  const NoMatchHeader := "SOURCE_SCI_NAME\tSOURCE_COMMON_NAME\n"

  /** The counters of `read`: one per rule (a multiset of the deciding rules)
      and the two output files as lists of lines. */
  datatype Counters = Counters(total: nat, matched: nat, noMatch: nat, multiple: nat, byRule: multiset<Rule>,
                               matchOut: seq<string>, noMatchOut: seq<string>)

  function Initial(): Counters {
    Counters(0, 0, 0, 0, multiset{}, [MatchHeader], [NoMatchHeader])
  }

  /** What the deciding rule's block does: count the rule, then either count
      a multiple match or write a match line for the first row found. */
  function Record(c: Counters, sci: string, common: string, h: Option<Hit>): Counters {
    match h
    case None => c
    case Some(hit) =>
      var c := c.(byRule := c.byRule + multiset{hit.rule});
      if |hit.rows| > 1 then c.(multiple := c.multiple + 1)
      else if hit.rows != [] then c.(matchOut := c.matchOut + [MatchLine(sci, common, hit.rule, hit.rows[0])])
      else c
  }

  /** The end of a considered row: the match or no-match counter, and the
      no-match line. */
  function Conclude(c: Counters, sci: string, common: string, h: Option<Hit>): Counters {
    if h.Some? then c.(matched := c.matched + 1)
    else c.(noMatch := c.noMatch + 1, noMatchOut := c.noMatchOut + [NoMatchLine(sci, common)])
  }

  /** One source row: skipped unless considered; otherwise counted, decided
      by the first rule that hits, and concluded. */
  function RowTallied(c: Counters, targets: seq<Target>, r: SourceRow, matchWithCommon: bool): Counters {
    if !Considered(r) then c
    else
      NamesTallied(c, targets, SourceSci(r), SourceCommon(r), matchWithCommon)
  }

  function Tally(targets: seq<Target>, rows: seq<SourceRow>, matchWithCommon: bool): Counters {
    if rows == [] then Initial()
    else RowTallied(Tally(targets, rows[..|rows| - 1], matchWithCommon), targets, rows[|rows| - 1], matchWithCommon)
  }

  /** One rule's block: when no earlier rule matched and this lookup finds
      rows, the row is matched here. */
  method TryRule(matched: bool, c: Counters, targets: seq<Target>, q: Query, sci: string, common: string,
                 ghost c0: Counters, ghost done: seq<Query>)
    returns (matched': bool, c': Counters)
    requires matched <==> FirstHit(targets, done).Some?
    requires c == Record(c0, sci, common, FirstHit(targets, done))
    ensures matched' <==> FirstHit(targets, done + [q]).Some?
    ensures c' == Record(c0, sci, common, FirstHit(targets, done + [q]))
  {
    FirstHitSnoc(targets, done, q);
    var rows := Hits(targets, TargetField(q.rule), q.name);
    matched', c' := matched, c;
    if rows != [] && !matched {
      matched' := true;
      c' := c'.(byRule := c'.byRule + multiset{q.rule});
      if |rows| > 1 {
        c' := c'.(multiple := c'.multiple + 1);
      } else {
        c' := c'.(matchOut := c'.matchOut + [MatchLine(sci, common, q.rule, rows[0])]);
      }
    }
  }

  /** Two blocks in a row. */
  method TryTwo(matched: bool, c: Counters, targets: seq<Target>, q0: Query, q1: Query, sci: string, common: string,
                ghost c0: Counters, ghost done: seq<Query>)
    returns (matched': bool, c': Counters)
    requires matched <==> FirstHit(targets, done).Some?
    requires c == Record(c0, sci, common, FirstHit(targets, done))
    ensures matched' <==> FirstHit(targets, done + [q0, q1]).Some?
    ensures c' == Record(c0, sci, common, FirstHit(targets, done + [q0, q1]))
  {
    matched', c' := TryRule(matched, c, targets, q0, sci, common, c0, done);
    matched', c' := TryRule(matched', c', targets, q1, sci, common, c0, done + [q0]);
    assert done + [q0] + [q1] == done + [q0, q1];
  }

  /** Four blocks in a row: the parenthesis or the comma rules. */
  method TryFour(matched: bool, c: Counters, targets: seq<Target>, q0: Query, q1: Query, q2: Query, q3: Query,
                 sci: string, common: string, ghost c0: Counters, ghost done: seq<Query>)
    returns (matched': bool, c': Counters)
    requires matched <==> FirstHit(targets, done).Some?
    requires c == Record(c0, sci, common, FirstHit(targets, done))
    ensures matched' <==> FirstHit(targets, done + [q0, q1, q2, q3]).Some?
    ensures c' == Record(c0, sci, common, FirstHit(targets, done + [q0, q1, q2, q3]))
  {
    matched', c' := TryTwo(matched, c, targets, q0, q1, sci, common, c0, done);
    matched', c' := TryTwo(matched', c', targets, q2, q3, sci, common, c0, done + [q0, q1]);
    assert done + [q0, q1] + [q2, q3] == done + [q0, q1, q2, q3];
  }

  /** The parenthesis and comma rules, tried only while unmatched. */
  method TrySplits(matched: bool, c: Counters, targets: seq<Target>, sci: string, common: string,
                   ghost c0: Counters, ghost done: seq<Query>)
    returns (matched': bool, c': Counters)
    requires matched <==> FirstHit(targets, done).Some?
    requires c == Record(c0, sci, common, FirstHit(targets, done))
    ensures matched' <==> FirstHit(targets, done + ParenQueries(sci) + CommaQueries(sci)).Some?
    ensures c' == Record(c0, sci, common, FirstHit(targets, done + ParenQueries(sci) + CommaQueries(sci)))
  {
    ghost var after := done + ParenQueries(sci) + CommaQueries(sci);
    if matched {
      FirstHitKeeps(targets, done, ParenQueries(sci) + CommaQueries(sci));
      assert done + (ParenQueries(sci) + CommaQueries(sci)) == after;
      return matched, c;
    }
    matched', c' := matched, c;
    var parenFound := ParenSplit(sci);
    var commaFound := CommaSplit(sci);
    if parenFound.Some? {
      var (wo, inside) := parenFound.value;
      matched', c' := TryFour(matched', c', targets, Query(SciBeforeParenToSci, wo), Query(SciInParenToSci, inside),
                              Query(SciBeforeParenToCommon, wo), Query(SciInParenToCommon, inside), sci, common, c0, done);
    } else {
      assert done + ParenQueries(sci) == done;
    }
    if commaFound.Some? {
      var (before, after) := commaFound.value;
      matched', c' := TryFour(matched', c', targets, Query(SciBeforeCommaToSci, before), Query(SciAfterCommaToSci, after),
                              Query(SciBeforeCommaToCommon, before), Query(SciAfterCommaToCommon, after), sci, common, c0,
                              done + ParenQueries(sci));
    } else {
      assert done + ParenQueries(sci) + CommaQueries(sci) == done + ParenQueries(sci);
    }
  }

  /** The common-name rules, tried only while unmatched and when enabled. */
  method TryCommon(matched: bool, c: Counters, targets: seq<Target>, sci: string, common: string, matchWithCommon: bool,
                   ghost c0: Counters, ghost done: seq<Query>)
    returns (matched': bool, c': Counters)
    requires matched <==> FirstHit(targets, done).Some?
    requires c == Record(c0, sci, common, FirstHit(targets, done))
    ensures matched' <==> FirstHit(targets, done + CommonQueries(common, matchWithCommon)).Some?
    ensures c' == Record(c0, sci, common, FirstHit(targets, done + CommonQueries(common, matchWithCommon)))
  {
    if !matched && matchWithCommon {
      matched', c' := TryTwo(matched, c, targets, Query(CommonToCommon, common), Query(CommonToSci, common),
                             sci, common, c0, done);
    } else if matched {
      FirstHitKeeps(targets, done, CommonQueries(common, matchWithCommon));
      matched', c' := matched, c;
    } else {
      assert done + CommonQueries(common, matchWithCommon) == done;
      matched', c' := matched, c;
    }
  }

  /** The rule cascade of one considered row, on its normalised names. */
  method Decide(c: Counters, targets: seq<Target>, sci: string, common: string, matchWithCommon: bool)
    returns (matched: bool, c': Counters)
    ensures matched <==> FirstHit(targets, Queries(sci, common, matchWithCommon)).Some?
    ensures c' == Record(c, sci, common, FirstHit(targets, Queries(sci, common, matchWithCommon)))
  {
    ghost var done: seq<Query> := [Query(SciToSci, sci), Query(SciToCommon, sci)];
    matched, c' := TryTwo(false, c, targets, Query(SciToSci, sci), Query(SciToCommon, sci), sci, common, c, []);
    assert [] + done == done;
    matched, c' := TrySplits(matched, c', targets, sci, common, c, done);
    done := done + ParenQueries(sci) + CommaQueries(sci);
    matched, c' := TryCommon(matched, c', targets, sci, common, matchWithCommon, c, done);
  }

  /** A considered row, on its normalised names: counted, decided and
      concluded. */
  function NamesTallied(c: Counters, targets: seq<Target>, sci: string, common: string, matchWithCommon: bool): Counters {
    var h := FirstHit(targets, Queries(sci, common, matchWithCommon));
    Conclude(Record(c.(total := c.total + 1), sci, common, h), sci, common, h)
  }

  method ReadNames(c: Counters, targets: seq<Target>, sci: string, common: string, matchWithCommon: bool)
    returns (c': Counters)
    ensures c' == NamesTallied(c, targets, sci, common, matchWithCommon)
  {
    c' := c.(total := c.total + 1);
    var matched;
    matched, c' := Decide(c', targets, sci, common, matchWithCommon);
    if matched {
      c' := c'.(matched := c'.matched + 1);
    } else {
      c' := c'.(noMatch := c'.noMatch + 1, noMatchOut := c'.noMatchOut + [NoMatchLine(sci, common)]);
    }
  }

  /** The body of the loop of `read`, for one source row. */
  method ReadRow(c: Counters, targets: seq<Target>, r: SourceRow, matchWithCommon: bool) returns (c': Counters)
    ensures c' == RowTallied(c, targets, r, matchWithCommon)
  {
    var sourceSciName := Strip(r.hostName);
    var sourceCommonName := Strip(r.hostCommonName);
    var sourceHostGroup := Lower(Strip(r.hostGroup));
    if !(sourceHostGroup == LimitHostGroup) {
      return c;
    }
    sourceSciName := CollapseSpace(sourceSciName);
    sourceCommonName := CollapseSpace(sourceCommonName);
    c' := ReadNames(c, targets, sourceSciName, sourceCommonName, matchWithCommon);
  }

  lemma TallyPrefix(targets: seq<Target>, rows: seq<SourceRow>, i: nat, matchWithCommon: bool)
    requires i < |rows|
    ensures Tally(targets, rows[..i + 1], matchWithCommon) ==
              RowTallied(Tally(targets, rows[..i], matchWithCommon), targets, rows[i], matchWithCommon)
  {
    assert rows[..i + 1][..i] == rows[..i];
  }

  /** `read` on the source rows and the target table; the outputs start
      with their header lines. */
  method Read(targets: seq<Target>, rows: seq<SourceRow>, matchWithCommon: bool) returns (c: Counters)
    ensures c == Tally(targets, rows, matchWithCommon)
  {
    c := Initial();
    var i := 0;
    assert rows[..0] == [];
    while i < |rows|
      invariant 0 <= i <= |rows|
      invariant c == Tally(targets, rows[..i], matchWithCommon)
    {
      TallyPrefix(targets, rows, i, matchWithCommon);
      c := ReadRow(c, targets, rows[i], matchWithCommon);
      i := i + 1;
    }
    assert rows[..i] == rows;
  }

  /** The rows `read` counts: the considered ones. */
  function ConsideredCount(rows: seq<SourceRow>): nat {
    if rows == [] then 0
    else ConsideredCount(rows[..|rows| - 1]) + (if Considered(rows[|rows| - 1]) then 1 else 0)
  }

  /** The counters agree with one another after `considered` rows. */
  predicate Balanced(c: Counters, considered: nat, matchWithCommon: bool) {
    && c.total == considered
    && c.total == c.matched + c.noMatch
    && |c.byRule| == c.matched
    && c.multiple + |c.matchOut| == c.matched + 1
    && |c.noMatchOut| == c.noMatch + 1
    && (!matchWithCommon ==> c.byRule[CommonToCommon] == 0 && c.byRule[CommonToSci] == 0)
  }

  lemma NamesBalanced(c: Counters, considered: nat, targets: seq<Target>, sci: string, common: string, matchWithCommon: bool)
    requires Balanced(c, considered, matchWithCommon)
    ensures Balanced(NamesTallied(c, targets, sci, common, matchWithCommon), considered + 1, matchWithCommon)
  {
    var qs := Queries(sci, common, matchWithCommon);
    var h := FirstHit(targets, qs);
    if h.Some? {
      FirstHitWins(targets, qs);
      if !matchWithCommon {
        QueriesWithoutCommon(sci, common);
        assert !UsesCommonName(h.value.rule);
      }
    }
  }

  /** Every considered row is either matched or not; skipped rows are not
      counted; each rule hit is a match; a match writes a line unless it is a
      multiple match; every unmatched row writes a no-match line; without
      the common-name option no common-name rule ever decides. */
  lemma {:induction false} TallyBalance(targets: seq<Target>, rows: seq<SourceRow>, matchWithCommon: bool)
    ensures Balanced(Tally(targets, rows, matchWithCommon), ConsideredCount(rows), matchWithCommon)
  {
    if rows != [] {
      var n := |rows| - 1;
      TallyBalance(targets, rows[..n], matchWithCommon);
      var r := rows[n];
      if Considered(r) {
        NamesBalanced(Tally(targets, rows[..n], matchWithCommon), ConsideredCount(rows[..n]), targets,
                      SourceSci(r), SourceCommon(r), matchWithCommon);
      }
    }
  }

  /** A row whose host group is not the limit group changes nothing. */
  lemma SkippedRowChangesNothing(c: Counters, targets: seq<Target>, r: SourceRow, matchWithCommon: bool)
    requires !Considered(r)
    ensures RowTallied(c, targets, r, matchWithCommon) == c
  {
  }

  /** A row whose scientific name is found among the target scientific
      names is decided by the first rule, whatever the other rules find. */
  lemma SciToSciFirst(targets: seq<Target>, sci: string, common: string, matchWithCommon: bool)
    requires Hits(targets, SciName, sci) != []
    ensures FirstHit(targets, Queries(sci, common, matchWithCommon)) == Some(Hit(SciToSci, Hits(targets, SciName, sci)))
  {
    var q0 := Query(SciToSci, sci);
    var qs := Queries(sci, common, matchWithCommon);
    assert qs[0] == q0 && qs == [q0] + qs[1..];
    assert HitsOf(targets, q0) == Hits(targets, SciName, sci);
    FirstQueryWins(targets, q0, qs[1..]);
  }

  /** A first query that finds something decides, whatever follows it. */
  lemma FirstQueryWins(targets: seq<Target>, q0: Query, rest: seq<Query>)
    requires HitsOf(targets, q0) != []
    ensures FirstHit(targets, [q0] + rest) == Some(Hit(q0.rule, HitsOf(targets, q0)))
  {
    FirstHitSnoc(targets, [], q0);
    assert [] + [q0] == [q0];
    FirstHitKeeps(targets, [q0], rest);
  }
}
