/// `gb_genome_acc_reorg.parse`: the ids of the lines reading `[ncbi]:<id>`
/// are written in input order, separated by `, `, with three line breaks
/// after every `max`-th id.
module GbGenomeAccReorg {
  import opened Results
  import opened Text
  import Arith

  const Marker := "[ncbi]:"

  /** `RE_1.match(t)`: the line must start with the marker, and `(.+)`
      captures the rest of its first line, at least one character. */
  function MatchId(t: string): (r: Option<string>)
    ensures r.Some? ==> r.value != [] && '\n' !in r.value
    ensures r.Some? ==> StartsWith(t, Marker + r.value)
  {
    if !StartsWith(t, Marker) then None
    else
      var id := FirstLine(t[|Marker|..]);
      assert Marker + id <= t by {
        assert t == Marker + t[|Marker|..];
      }
      if id == [] then None else Some(id)
  }

  /** The id a line contributes: a match of the stripped line other than
      `Isolate`. */
  function IdOf(line: string): Option<string> {
    match MatchId(Strip(line))
    case Some(id) => if id == "Isolate" then None else Some(id)
    case None => None
  }

  /** The ids of all lines, in input order. */
  function Ids(lines: seq<string>): seq<string> {
    if lines == [] then []
    else
      Ids(lines[..|lines| - 1])
      + match IdOf(lines[|lines| - 1]) case Some(id) => [id] case None => []
  }

  /** What follows the `k`-th id written (counting from 1). */
  function Separator(k: nat, max: int): string {
    if max >= 1 && k % max == 0 then "\n\n\n" else ", "
  }

  /** The output for a list of ids. */
  function Layout(ids: seq<string>, max: int): string {
    if ids == [] then []
    else Layout(ids[..|ids| - 1], max) + ids[|ids| - 1] + Separator(|ids|, max)
  }

  /** The value of `counter` after `n` ids: it is reset whenever it reaches
      `max`, which never happens for `max < 1`. */
  function CounterAfter(n: nat, max: int): nat {
    if max >= 1 then n % max else n
  }

  /** What has been written and the value of `counter`. */
  datatype Output = Output(text: string, counter: nat)

  /** The loop body for one line. */
  function LineStep(st: Output, line: string, max: int): Output {
    match IdOf(line)
    case None => st
    case Some(id) =>
      var c := st.counter + 1;
      if c == max then Output(st.text + id + "\n\n\n", 0) else Output(st.text + id + ", ", c)
  }

  function Run(lines: seq<string>, max: int): Output {
    if lines == [] then Output([], 0) else LineStep(Run(lines[..|lines| - 1], max), lines[|lines| - 1], max)
  }

  lemma {:induction false} RunStep(lines: seq<string>, i: nat, max: int)
    requires i < |lines|
    ensures Run(lines[..i + 1], max) == LineStep(Run(lines[..i], max), lines[i], max)
  {
    assert lines[..i + 1][..i] == lines[..i];
  }

  method Parse(lines: seq<string>, max: int) returns (out: string, counter: nat)
    ensures Output(out, counter) == Run(lines, max)
    ensures out == Layout(Ids(lines), max)
    ensures counter == CounterAfter(|Ids(lines)|, max)
    ensures max >= 1 ==> counter < max
  {
    out := [];
    counter := 0;
    var i := 0;
    assert lines[..0] == [];
    assert Output(out, counter) == Run(lines[..0], max);
    while i < |lines|
      invariant 0 <= i <= |lines|
      invariant Output(out, counter) == Run(lines[..i], max)
    {
      RunStep(lines, i, max);
      ghost var st := Output(out, counter);
      var m := MatchId(Strip(lines[i]));
      if m.Some? {
        var id := m.value;
        if id != "Isolate" {
          assert IdOf(lines[i]) == Some(id);
          counter := counter + 1;
          out := out + id;
          if counter == max {
            out := out + "\n\n\n";
            counter := 0;
          } else {
            out := out + ", ";
          }
          assert Output(out, counter) == LineStep(st, lines[i], max);
        } else {
          assert IdOf(lines[i]).None?;
          assert LineStep(st, lines[i], max) == st;
        }
      } else {
        assert IdOf(lines[i]).None?;
        assert LineStep(st, lines[i], max) == st;
      }
      assert Output(out, counter) == Run(lines[..i + 1], max);
      i := i + 1;
    }
    assert lines[..i] == lines;
    RunIsLayout(lines, max);
  }

  /** The output is the ids in input order, each followed by its separator,
      and the counter is the number of ids modulo `max`; so for `max >= 1`
      the counter stays in `0..max-1`. */
  lemma {:induction false} RunIsLayout(lines: seq<string>, max: int)
    ensures Run(lines, max).text == Layout(Ids(lines), max)
    ensures Run(lines, max).counter == CounterAfter(|Ids(lines)|, max)
    ensures max >= 1 ==> Run(lines, max).counter < max
  {
    if lines != [] {
      var prefix := lines[..|lines| - 1];
      var line := lines[|lines| - 1];
      RunIsLayout(prefix, max);
      var ids := Ids(prefix);
      var st := Run(prefix, max);
      assert Run(lines, max) == LineStep(st, line, max);
      match IdOf(line)
      case None =>
        assert Ids(lines) == ids;
      case Some(id) =>
        assert Ids(lines) == ids + [id];
        LayoutOfAppend(ids, id, max);
        CounterStep(|ids|, max);
        var sep := Separator(|ids| + 1, max);
        assert Layout(Ids(lines), max) == st.text + id + sep;
        if st.counter + 1 == max {
          assert Run(lines, max) == Output(st.text + id + sep, 0);
        } else {
          assert Run(lines, max) == Output(st.text + id + sep, st.counter + 1);
        }
    }
  }

  /** One more id: the counter goes up by one, or back to zero exactly when
      it reaches `max`, and the separator written agrees. */
  lemma CounterStep(n: nat, max: int)
    ensures CounterAfter(n + 1, max) == if CounterAfter(n, max) + 1 == max then 0 else CounterAfter(n, max) + 1
    ensures Separator(n + 1, max) == if CounterAfter(n, max) + 1 == max then "\n\n\n" else ", "
  {
    if max >= 1 {
      var q := n / max;
      var r := n % max;
      assert n == q * max + r;
      if r + 1 == max {
        assert n + 1 == (q + 1) * max + 0;
        Arith.DivUnique(n + 1, max, q + 1, 0);
      } else {
        assert n + 1 == q * max + (r + 1);
        Arith.DivUnique(n + 1, max, q, r + 1);
      }
    }
  }

  /** Any `max` consecutive ids include one followed by the three line
      breaks, so no group holds more than `max` ids. */
  lemma GroupsHoldAtMostMax(first: nat, max: int)
    requires max >= 1
    ensures exists k :: first + 1 <= k <= first + max && Separator(k, max) == "\n\n\n"
  {
    var k := first + max - first % max;
    assert first == (first / max) * max + first % max;
    assert k == (first / max + 1) * max;
    Arith.DivUnique(k, max, first / max + 1, 0);
    assert Separator(k, max) == "\n\n\n";
  }

  /** Without a positive group size every id is followed by `, `. */
  lemma NoGroupsWithoutPositiveMax(k: nat, max: int)
    requires max < 1
    ensures Separator(k, max) == ", "
  {
  }

  /** Ids appear in the output in input order, one per qualifying line:
      each is followed by its separator. */
  lemma {:induction false} LayoutOfAppend(ids: seq<string>, id: string, max: int)
    ensures Layout(ids + [id], max) == Layout(ids, max) + id + Separator(|ids| + 1, max)
  {
    assert (ids + [id])[..|ids|] == ids;
  }

  /** Lines that do not qualify add nothing to the output. */
  lemma {:induction false} IdsSkipLine(lines: seq<string>, line: string)
    requires IdOf(line).None?
    ensures Ids(lines + [line]) == Ids(lines)
  {
    assert (lines + [line])[..|lines|] == lines;
  }

  /** A line of the marker and an id without whitespace matches, and
      captures that id. */
  lemma MatchMarkerLine(line: string, id: string)
    requires id != [] && NoSpace(id) && line == Marker + id
    ensures Strip(line) == line
    ensures MatchId(line) == Some(id)
  {
    MarkerLineNoSpace(line, id);
    StripNoSpace(line);
    NoSpaceNoNewline(id);
    MatchOfMarker(line, id);
  }

  lemma NoSpaceNoNewline(s: string)
    requires NoSpace(s)
    ensures '\n' !in s
  {
    assert IsSpace('\n');
  }

  /** The marker followed by a one-line id captures that id. */
  lemma MatchOfMarker(t: string, id: string)
    requires id != [] && '\n' !in id && t == Marker + id
    ensures MatchId(t) == Some(id)
  {
    assert StartsWith(t, Marker);
    assert t[|Marker|..] == id;
    FirstLineWhole(id);
  }

  lemma MarkerLineNoSpace(line: string, id: string)
    requires NoSpace(id) && line == Marker + id
    ensures NoSpace(line)
  {
    forall k | 0 <= k < |line| ensures !IsSpace(line[k]) {
      if k >= |Marker| {
        assert line[k] == id[k - |Marker|];
      }
    }
  }

  /** Such a line contributes its id, unless the id is `Isolate`. */
  lemma MarkerLine(line: string, id: string)
    requires id != [] && NoSpace(id) && line == Marker + id && id != "Isolate"
    ensures IdOf(line) == Some(id)
  {
    MatchMarkerLine(line, id);
  }

  /** The `Isolate` marker line contributes nothing. */
  lemma IsolateLineSkipped()
    ensures IdOf("[ncbi]:Isolate") == None
  {
    MatchMarkerLine("[ncbi]:Isolate", "Isolate");
  }

  lemma {:induction false} FirstLineWhole(s: string)
    requires '\n' !in s
    ensures FirstLine(s) == s
  {
    if s != [] {
      FirstLineWhole(s[1..]);
    }
  }
}
