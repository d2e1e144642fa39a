/// A file of lines cut at its header lines, whatever makes a line a header:
/// the lines before the first header, then one section per header running up
/// to the next one. The FASTA readers build one record per section.
module FileSections {
  import opened Results

  /** The indexes of the lines that `isHeader` selects, in increasing order. */
  function Headers(lines: seq<string>, isHeader: string -> bool): (hs: seq<nat>)
    ensures forall j :: 0 <= j < |hs| ==> hs[j] < |lines| && isHeader(lines[hs[j]])
    ensures forall a, b :: 0 <= a < b < |hs| ==> hs[a] < hs[b]
  {
    if lines == [] then []
    else
      var n := |lines| - 1;
      Headers(lines[..n], isHeader) + (if isHeader(lines[n]) then [n] else [])
  }

  /** Every header line is listed. */
  lemma {:induction false} HeadersComplete(lines: seq<string>, isHeader: string -> bool, m: nat)
    requires m < |lines| && isHeader(lines[m])
    ensures m in Headers(lines, isHeader)
  {
    var n := |lines| - 1;
    if m < n {
      HeadersComplete(lines[..n], isHeader, m);
    }
  }

  /** A part of the file: the header line that opens it (none for the lines
      before the first header) and the lines up to the next header. */
  datatype Section = Section(opener: Option<string>, body: seq<string>)

  /** Section `t`, for `t` up to the number of headers: it starts at the top
      or after header `t - 1`, and ends at header `t` or at the end. (The
      indexes of `Headers` increase, so the last alternative never applies.) */
  function SectionAt(lines: seq<string>, hs: seq<nat>, t: nat): Section
    requires t <= |hs|
  {
    var start := if t == 0 then 0 else hs[t - 1] + 1;
    var end := if t < |hs| then hs[t] else |lines|;
    Section(if t == 0 || hs[t - 1] >= |lines| then None else Some(lines[hs[t - 1]]),
            if start <= end <= |lines| then lines[start..end] else [])
  }

  /** The file cut at its header lines. */
  function Sections(lines: seq<string>, isHeader: string -> bool): seq<Section> {
    SectionsOf(lines, Headers(lines, isHeader))
  }

  function SectionsOf(lines: seq<string>, hs: seq<nat>): seq<Section> {
    seq(|hs| + 1, t requires 0 <= t <= |hs| => SectionAt(lines, hs, t))
  }

  /** A line that `isHeader` selects is listed. */
  lemma {:induction false} HeadersListed(lines: seq<string>, isHeader: string -> bool, m: nat)
    requires m < |lines|
    ensures isHeader(lines[m]) ==> m in Headers(lines, isHeader)
  {
    var n := |lines| - 1;
    if m < n {
      HeadersListed(lines[..n], isHeader, m);
    }
  }

  /** A section holds no header line: it runs up to the next one. */
  lemma SectionHasNoHeader(lines: seq<string>, isHeader: string -> bool, t: nat, m: nat)
    requires t < |Sections(lines, isHeader)|
    requires m < |Sections(lines, isHeader)[t].body|
    ensures !isHeader(Sections(lines, isHeader)[t].body[m])
  {
    var hs := Headers(lines, isHeader);
    var start := if t == 0 then 0 else hs[t - 1] + 1;
    var end := if t < |hs| then hs[t] else |lines|;
    var i := start + m;
    assert Sections(lines, isHeader)[t].body[m] == lines[i];
    forall j | 0 <= j < |hs|
      ensures hs[j] != i
    {
      if j < t {
        assert hs[j] <= hs[t - 1];
      } else {
        assert hs[t] <= hs[j];
      }
    }
    HeadersListed(lines, isHeader, i);
  }

  /** The headers of the file but its last line. */
  lemma HeadersSnoc(lines: seq<string>, isHeader: string -> bool)
    requires lines != []
    ensures var n := |lines| - 1;
      Headers(lines, isHeader) == Headers(lines[..n], isHeader) + (if isHeader(lines[n]) then [n] else [])
  {
  }

  /** A section of the file but its last line that ends at a header is a
      section of the whole file. */
  lemma SectionAtPrefix(lines: seq<string>, hs: seq<nat>, ps: seq<nat>, t: nat)
    requires lines != [] && t < |ps| <= |hs| && hs[..|ps|] == ps
    requires ps[t] < |lines| - 1 && (t > 0 ==> ps[t - 1] < |lines| - 1)
    ensures SectionAt(lines, hs, t) == SectionAt(lines[..|lines| - 1], ps, t)
  {
    var p := lines[..|lines| - 1];
    var start := if t == 0 then 0 else hs[t - 1] + 1;
    assert hs[t] == ps[t];
    assert t > 0 ==> hs[t - 1] == ps[t - 1];
    if start <= ps[t] {
      assert forall k :: 0 <= k < ps[t] - start ==> p[start..ps[t]][k] == lines[start + k];
      assert lines[start..ps[t]] == p[start..ps[t]];
    }
  }

  /** The last section of the file but its last line, once that line is read. */
  lemma SectionAtLast(lines: seq<string>, hs: seq<nat>, ps: seq<nat>, header: bool)
    requires lines != [] && hs == ps + (if header then [|lines| - 1] else [])
    requires |ps| > 0 ==> ps[|ps| - 1] < |lines| - 1
    ensures var p, x := lines[..|lines| - 1], lines[|lines| - 1];
      var last := SectionAt(p, ps, |ps|);
      SectionAt(lines, hs, |ps|) == if header then last else last.(body := last.body + [x])
  {
    var n := |lines| - 1;
    var p, x := lines[..n], lines[n];
    var t := |ps|;
    var start := if t == 0 then 0 else hs[t - 1] + 1;
    assert t > 0 ==> hs[t - 1] == ps[t - 1];
    if header {
      assert lines[start..n] == p[start..n];
    } else {
      assert lines[start..n + 1] == p[start..n] + [x];
    }
  }

  /** One more line either opens a new section or extends the last one. */
  lemma SectionsSnoc(lines: seq<string>, isHeader: string -> bool)
    requires lines != []
    ensures var p, x := lines[..|lines| - 1], lines[|lines| - 1];
      var secs := Sections(p, isHeader);
      var last := secs[|secs| - 1];
      Sections(lines, isHeader) == if isHeader(x) then secs + [Section(Some(x), [])]
                                   else secs[..|secs| - 1] + [last.(body := last.body + [x])]
  {
    var n := |lines| - 1;
    var hs, ps := Headers(lines, isHeader), Headers(lines[..n], isHeader);
    HeadersSnoc(lines, isHeader);
    assert |ps| > 0 ==> ps[|ps| - 1] < n;
    SectionAtLast(lines, hs, ps, isHeader(lines[n]));
    if isHeader(lines[n]) {
      OpenSection(lines, hs, ps);
    } else {
      ExtendSection(lines, hs, ps);
    }
  }

  lemma OpenSection(lines: seq<string>, hs: seq<nat>, ps: seq<nat>)
    requires lines != [] && hs == ps + [|lines| - 1]
    requires forall j :: 0 <= j < |ps| ==> ps[j] < |lines| - 1
    requires SectionAt(lines, hs, |ps|) == SectionAt(lines[..|lines| - 1], ps, |ps|)
    ensures SectionsOf(lines, hs) == SectionsOf(lines[..|lines| - 1], ps) + [Section(Some(lines[|lines| - 1]), [])]
  {
    var n := |lines| - 1;
    var secs := SectionsOf(lines[..n], ps);
    var rhs := secs + [Section(Some(lines[n]), [])];
    assert SectionAt(lines, hs, |ps| + 1) == Section(Some(lines[n]), lines[n + 1..n + 1]);
    forall t | 0 <= t < |rhs|
      ensures SectionsOf(lines, hs)[t] == rhs[t]
    {
      if t < |ps| {
        SectionAtPrefix(lines, hs, ps, t);
      }
    }
  }

  lemma ExtendSection(lines: seq<string>, hs: seq<nat>, ps: seq<nat>)
    requires lines != [] && hs == ps
    requires forall j :: 0 <= j < |ps| ==> ps[j] < |lines| - 1
    requires var last := SectionAt(lines[..|lines| - 1], ps, |ps|);
      SectionAt(lines, hs, |ps|) == last.(body := last.body + [lines[|lines| - 1]])
    ensures var secs := SectionsOf(lines[..|lines| - 1], ps);
      var last := secs[|secs| - 1];
      SectionsOf(lines, hs) == secs[..|secs| - 1] + [last.(body := last.body + [lines[|lines| - 1]])]
  {
    var secs := SectionsOf(lines[..|lines| - 1], ps);
    var last := secs[|ps|];
    var rhs := secs[..|ps|] + [last.(body := last.body + [lines[|lines| - 1]])];
    forall t | 0 <= t < |rhs|
      ensures SectionsOf(lines, hs)[t] == rhs[t]
    {
      if t < |ps| {
        SectionAtPrefix(lines, hs, ps, t);
      }
    }
  }

  /** The first section holds the lines before the first header. */
  lemma FirstSection(lines: seq<string>, isHeader: string -> bool)
    ensures var hs := Headers(lines, isHeader);
      Sections(lines, isHeader)[0] == Section(None, lines[..if hs == [] then |lines| else hs[0]])
  {
  }

  /** The section after header `k` starts at the line after it and runs up to
      header `k + 1` or to the end. */
  lemma SectionAfterHeader(lines: seq<string>, isHeader: string -> bool, k: nat)
    requires k < |Headers(lines, isHeader)|
    ensures var hs := Headers(lines, isHeader);
      var end := if k + 1 < |hs| then hs[k + 1] else |lines|;
      hs[k] < end <= |lines|
      && Sections(lines, isHeader)[k + 1] == Section(Some(lines[hs[k]]), lines[hs[k] + 1..end])
  {
  }
}
