/// String primitives of Python 3 that the scripts use, stated on `seq<char>`:
/// whitespace as `str.isspace` and the regular-expression class `\s` define it,
/// `strip`, `lower`/`upper` on ASCII letters, `find`, `in`, `split`,
/// slicing with a negative end, `re.sub(r'\s+', ...)`, `str(int)` and the
/// lexicographic `<` on strings.
module Text {

  /** The characters for which Python's `str.isspace()` holds; the class `\s`
      of a `str` pattern in `re` is the same set. */
  predicate IsSpace(c: char) {
    var n := c as int;
    (9 <= n <= 13) || (28 <= n <= 32) || n == 0x85 || n == 0xA0 || n == 0x1680
    || (0x2000 <= n <= 0x200A) || n == 0x2028 || n == 0x2029 || n == 0x202F
    || n == 0x205F || n == 0x3000
  }

  predicate NoSpace(s: string) {
    forall i :: 0 <= i < |s| ==> !IsSpace(s[i])
  }

  /** `\d` restricted to ASCII digits. */
  predicate IsDigit(c: char) {
    '0' <= c <= '9'
  }

  predicate HasDigit(s: string) {
    exists i :: 0 <= i < |s| && IsDigit(s[i])
  }

  /** Leading whitespace removed (`lstrip()`). */
  function TrimLeft(s: string): (r: string)
    ensures |r| <= |s| && r == s[|s| - |r|..]
    ensures r != [] ==> !IsSpace(r[0])
    ensures forall i :: 0 <= i < |s| - |r| ==> IsSpace(s[i])
  {
    if s != [] && IsSpace(s[0]) then TrimLeft(s[1..]) else s
  }

  /** Trailing whitespace removed (`rstrip()`). */
  function TrimRight(s: string): (r: string)
    ensures |r| <= |s| && r == s[..|r|]
    ensures r != [] ==> !IsSpace(r[|r| - 1])
    ensures forall i :: |r| <= i < |s| ==> IsSpace(s[i])
  {
    if s != [] && IsSpace(s[|s| - 1]) then TrimRight(s[..|s| - 1]) else s
  }

  /** Python's `str.strip()`. */
  function Strip(s: string): (r: string)
    ensures r != [] ==> !IsSpace(r[0]) && !IsSpace(r[|r| - 1])
  {
    TrimRight(TrimLeft(s))
  }

  /** Stripping a string without whitespace changes nothing. */
  lemma StripNoSpace(s: string)
    requires NoSpace(s)
    ensures Strip(s) == s
  {
    assert TrimLeft(s) == s;
    if s != [] {
      assert !IsSpace(s[|s| - 1]);
    }
  }

  /** A string that neither starts nor ends with whitespace is left as it
      is by `strip()`. */
  lemma StripKeepsTrimmed(s: string)
    requires s != [] && !IsSpace(s[0]) && !IsSpace(s[|s| - 1])
    ensures Strip(s) == s
  {
    assert TrimLeft(s) == s;
  }

  function LowerChar(c: char): char {
    if 'A' <= c <= 'Z' then (c as int + 32) as char else c
  }

  function UpperChar(c: char): char {
    if 'a' <= c <= 'z' then (c as int - 32) as char else c
  }

  /** `str.lower()` on ASCII letters. */
  function Lower(s: string): (r: string)
    ensures |r| == |s|
    ensures forall i :: 0 <= i < |s| ==> r[i] == LowerChar(s[i])
  {
    seq(|s|, i requires 0 <= i < |s| => LowerChar(s[i]))
  }

  /** `str.upper()` on ASCII letters. */
  function Upper(s: string): (r: string)
    ensures |r| == |s|
    ensures forall i :: 0 <= i < |s| ==> r[i] == UpperChar(s[i])
  {
    seq(|s|, i requires 0 <= i < |s| => UpperChar(s[i]))
  }

  /** Occurrences of `c` in `s` (`s.count(c)` for a one-character argument). */
  function Count(s: string, c: char): nat {
    if s == [] then 0 else (if s[0] == c then 1 else 0) + Count(s[1..], c)
  }

  /** `s` without the characters that `drop` selects. */
  function Without(s: string, drop: char -> bool): (r: string)
    ensures |r| <= |s|
    ensures forall i :: 0 <= i < |r| ==> !drop(r[i])
  {
    if s == [] then [] else (if drop(s[0]) then [] else [s[0]]) + Without(s[1..], drop)
  }

  predicate IsGapOrSpace(c: char) {
    c == '-' || IsSpace(c)
  }

  /** `re.sub(r"\s+", "", s)`. */
  function RemoveSpace(s: string): (r: string)
    ensures NoSpace(r)
  {
    Without(s, IsSpace)
  }

  /** `re.sub(r"[-\s]+", "", s)`. */
  function RemoveGaps(s: string): (r: string)
    ensures NoSpace(r) && '-' !in r
  {
    var r := Without(s, IsGapOrSpace);
    assert forall i :: 0 <= i < |r| ==> !IsGapOrSpace(r[i]);
    r
  }

  /** `re.sub(r"\s+", " ", s)`: every maximal run of whitespace becomes one blank. */
  function CollapseSpace(s: string): (r: string)
    ensures |r| <= |s|
    decreases |s|
  {
    if s == [] then []
    else if IsSpace(s[0]) then [' '] + CollapseSpace(TrimLeft(s))
    else [s[0]] + CollapseSpace(s[1..])
  }

  predicate OccursAt(s: string, pat: string, i: nat) {
    i + |pat| <= |s| && s[i..i + |pat|] == pat
  }

  function FindFrom(s: string, pat: string, i: nat): (r: int)
    requires i <= |s|
    ensures r == -1 || (i <= r && OccursAt(s, pat, r))
    ensures r == -1 ==> forall j :: i <= j <= |s| ==> !OccursAt(s, pat, j)
    ensures r >= 0 ==> forall j :: i <= j < r ==> !OccursAt(s, pat, j)
    decreases |s| - i
  {
    if OccursAt(s, pat, i) then i
    else if i == |s| then -1
    else FindFrom(s, pat, i + 1)
  }

  /** `s.find(pat)`: the lowest index where `pat` occurs, or -1. */
  function Find(s: string, pat: string): (r: int)
    ensures r == -1 || (0 <= r && OccursAt(s, pat, r))
    ensures r == -1 <==> forall j :: 0 <= j <= |s| ==> !OccursAt(s, pat, j)
    ensures r >= 0 ==> forall j :: 0 <= j < r ==> !OccursAt(s, pat, j)
  {
    FindFrom(s, pat, 0)
  }

  /** `pat in s`. */
  predicate Contains(s: string, pat: string) {
    Find(s, pat) >= 0
  }

  /** `s[0:end]` for any integer `end`: a negative end counts from the back. */
  function SliceTo(s: string, end: int): (r: string)
    ensures r <= s
    ensures end >= 0 ==> |r| == if end <= |s| then end else |s|
    ensures end < 0 ==> |r| == if -end <= |s| then |s| + end else 0
  {
    if end >= 0 then (if end <= |s| then s[..end] else s)
    else if -end <= |s| then s[..|s| + end]
    else []
  }

  /** `s.split(sep)` for a non-empty separator. */
  function Split(s: string, sep: string): (parts: seq<string>)
    requires sep != []
    ensures |parts| >= 1
    decreases |s|
  {
    var i := Find(s, sep);
    if i < 0 then [s] else [s[..i]] + Split(s[i + |sep|..], sep)
  }

  function Join(parts: seq<string>, sep: string): string {
    if parts == [] then []
    else if |parts| == 1 then parts[0]
    else parts[0] + sep + Join(parts[1..], sep)
  }

  /** The longest prefix of `s` without whitespace. */
  function Word(s: string): (w: string)
    ensures w <= s && NoSpace(w)
    ensures |w| < |s| ==> IsSpace(s[|w|])
  {
    if s == [] || IsSpace(s[0]) then [] else [s[0]] + Word(s[1..])
  }

  /** The text before the first line break: what `.` and `.+` of a pattern
      compiled without `re.DOTALL` can reach. */
  function FirstLine(s: string): (r: string)
    ensures r <= s && '\n' !in r
    ensures |r| < |s| ==> s[|r|] == '\n'
  {
    if s == [] || s[0] == '\n' then [] else [s[0]] + FirstLine(s[1..])
  }

  /** `s.startswith(p)`. */
  predicate StartsWith(s: string, p: string) {
    p <= s
  }

  /** A non-empty run of non-whitespace. */
  predicate IsWord(w: string) {
    w != [] && NoSpace(w)
  }

  /** `s.split()`: the maximal runs of non-whitespace, in order. */
  function SplitSpace(s: string): (words: seq<string>)
    ensures forall k :: 0 <= k < |words| ==> IsWord(words[k])
    decreases |s|
  {
    var t := TrimLeft(s);
    if t == [] then [] else
      var w := Word(t);
      assert w != [] by { WordOfWordStart(t); }
      assert |t[|w|..]| < |s|;
      var rest := SplitSpace(t[|w|..]);
      WordsCons(w, rest);
      [w] + rest
  }

  /** A word in front of a list of words gives a list of words. */
  lemma WordsCons(w: string, rest: seq<string>)
    requires IsWord(w)
    requires forall k :: 0 <= k < |rest| ==> IsWord(rest[k])
    ensures forall k :: 0 <= k < |[w] + rest| ==> IsWord(([w] + rest)[k])
  {
    forall k | 0 <= k < |[w] + rest|
      ensures IsWord(([w] + rest)[k])
    {
      if k > 0 {
        assert ([w] + rest)[k] == rest[k - 1];
      }
    }
  }

  /** A text that starts with a non-whitespace character starts with a
      non-empty word. */
  lemma WordOfWordStart(t: string)
    requires t != [] && !IsSpace(t[0])
    ensures Word(t) != []
  {
  }

  function DigitChar(d: nat): char
    requires d < 10
  {
    ['0', '1', '2', '3', '4', '5', '6', '7', '8', '9'][d]
  }

  /** `str(n)` for a natural number. */
  function NatToString(n: nat): (r: string)
    ensures r != []
    ensures forall i :: 0 <= i < |r| ==> IsDigit(r[i])
  {
    if n < 10 then [DigitChar(n)] else NatToString(n / 10) + [DigitChar(n % 10)]
  }

  /** `str(i)` for an integer. */
  function IntToString(i: int): string {
    if i < 0 then "-" + NatToString(-i) else NatToString(i)
  }

  /** Python's `<` on strings: lexicographic on code points, a proper prefix first. */
  predicate LexLess(a: string, b: string) {
    if a == [] then b != []
    else if b == [] then false
    else if a[0] != b[0] then a[0] < b[0]
    else LexLess(a[1..], b[1..])
  }

  lemma {:induction false} LexLessIrreflexive(a: string)
    ensures !LexLess(a, a)
  {
    if a != [] {
      LexLessIrreflexive(a[1..]);
    }
  }

  lemma {:induction false} LexLessTransitive(a: string, b: string, c: string)
    requires LexLess(a, b) && LexLess(b, c)
    ensures LexLess(a, c)
  {
    if a != [] && b != [] && c != [] && a[0] == b[0] && b[0] == c[0] {
      LexLessTransitive(a[1..], b[1..], c[1..]);
    }
  }

  lemma {:induction false} LexLessTotal(a: string, b: string)
    ensures a == b || LexLess(a, b) || LexLess(b, a)
  {
    if a != [] && b != [] && a[0] == b[0] {
      LexLessTotal(a[1..], b[1..]);
      if a[1..] == b[1..] {
        assert a == [a[0]] + a[1..] && b == [b[0]] + b[1..];
      }
    }
  }

  lemma IntToStringNoNewline(i: int)
    ensures '\n' !in IntToString(i)
  {
    var digits := NatToString(if i < 0 then -i else i);
    assert forall k :: 0 <= k < |digits| ==> digits[k] != '\n';
  }

  lemma NoOccurrence(s: string, c: char)
    requires c !in s
    ensures Find(s, [c]) == -1
  {
    forall j | 0 <= j <= |s| ensures !OccursAt(s, [c], j) {
      if j < |s| {
        assert s[j..j + 1][0] == s[j];
      }
    }
  }

  /** Nothing before the first occurrence of a character is that character. */
  lemma BeforeFirst(s: string, c: char)
    requires Find(s, [c]) >= 0
    ensures c !in s[..Find(s, [c])]
  {
    var i := Find(s, [c]);
    forall j | 0 <= j < i ensures s[j] != c {
      assert !OccursAt(s, [c], j);
      assert s[j..j + 1][0] == s[j];
    }
  }

  /** Stripping adds no character. */
  /** How many whitespace characters `s` starts with. */
  function LeadingSpace(s: string): nat {
    |s| - |TrimLeft(s)|
  }

  /** `strip()` keeps a slice of its argument and drops only whitespace
      around it. */
  lemma StripSlice(s: string)
    ensures var a := LeadingSpace(s);
      a + |Strip(s)| <= |s| && Strip(s) == s[a..a + |Strip(s)|]
      && (forall j :: 0 <= j < a ==> IsSpace(s[j]))
      && (forall j :: a + |Strip(s)| <= j < |s| ==> IsSpace(s[j]))
  {
    var l := TrimLeft(s);
    var a := |s| - |l|;
    var r := TrimRight(l);
    assert LeadingSpace(s) == a;
    assert Strip(s) == r;
    forall j | 0 <= j < a
      ensures IsSpace(s[j])
    {
    }
    assert l == s[a..] && r == l[..|r|];
    assert r == s[a..a + |r|];
    forall j | a + |r| <= j < |s|
      ensures IsSpace(s[j])
    {
      assert s[j] == l[j - a];
      assert IsSpace(l[j - a]);
    }
  }

  /** `s[:i].strip()` is a slice of `s` with only whitespace around it
      before `i`. */
  lemma StripPrefixSlice(s: string, i: nat)
    requires i <= |s|
    ensures var a := LeadingSpace(s[..i]);
      var n := Strip(s[..i]);
      a + |n| <= i && n == s[a..a + |n|]
      && (forall j :: 0 <= j < a ==> IsSpace(s[j]))
      && (forall j :: a + |n| <= j < i ==> IsSpace(s[j]))
  {
    var w := s[..i];
    StripSlice(w);
    PrefixSpaces(s, i, w, LeadingSpace(w), |Strip(w)|);
  }

  /** What holds of a prefix's characters holds of the string's. */
  lemma PrefixSpaces(s: string, i: nat, w: string, a: nat, m: nat)
    requires i <= |s| && w == s[..i] && a + m <= i
    requires forall j :: 0 <= j < a ==> IsSpace(w[j])
    requires forall j :: a + m <= j < |w| ==> IsSpace(w[j])
    ensures w[a..a + m] == s[a..a + m]
    ensures forall j :: 0 <= j < a ==> IsSpace(s[j])
    ensures forall j :: a + m <= j < i ==> IsSpace(s[j])
  {
    assert forall j :: 0 <= j < i ==> w[j] == s[j];
  }

  /** `r` is `s[:i].strip()` as a window: it sits in `s` before `i` with only
      whitespace on either side of it, and does not begin or end with
      whitespace. */
  predicate TrimmedWindow(s: string, i: nat, r: string)
    requires i <= |s|
  {
    var a := LeadingSpace(s[..i]);
    a + |r| <= i && r == s[a..a + |r|]
    && (forall j :: 0 <= j < a ==> IsSpace(s[j]))
    && (forall j :: a + |r| <= j < i ==> IsSpace(s[j]))
    && (r != [] ==> !IsSpace(r[0]) && !IsSpace(r[|r| - 1]))
  }

  lemma StripPrefixWindow(s: string, i: nat)
    requires i <= |s|
    ensures TrimmedWindow(s, i, Strip(s[..i]))
  {
    StripPrefixSlice(s, i);
  }

  lemma StripKeepsAbsent(s: string, c: char)
    requires c !in s
    ensures c !in Strip(s)
  {
    var l := TrimLeft(s);
    assert l == s[|s| - |l|..];
    assert TrimRight(l) == l[..|TrimRight(l)|];
  }

  /** Two lines joined by one line break split back into the two lines. */
  lemma SplitAtNewline(a: string, b: string)
    requires '\n' !in a && '\n' !in b
    ensures Split(a + "\n" + b, "\n") == [a, b]
  {
    var s := a + "\n" + b;
    assert OccursAt(s, "\n", |a|);
    forall j | 0 <= j < |a| ensures !OccursAt(s, "\n", j) {
      assert s[j] == a[j];
    }
    assert Find(s, "\n") == |a|;
    assert s[..|a|] == a && s[|a| + 1..] == b;
    NoOccurrence(b, '\n');
    assert Split(b, "\n") == [b];
  }

  /** Length of the run of digits starting at `i` (what a greedy `\d+` takes). */
  function DigitRun(s: string, i: nat): (n: nat)
    ensures i + n <= |s| || n == 0
    ensures forall k :: i <= k < i + n ==> IsDigit(s[k])
    ensures i + n < |s| ==> !IsDigit(s[i + n])
    decreases |s| - i
  {
    if i < |s| && IsDigit(s[i]) then 1 + DigitRun(s, i + 1) else 0
  }

  /** Length of the run of whitespace starting at `i` (a greedy `\s+`). */
  function SpaceRun(s: string, i: nat): (n: nat)
    ensures i + n <= |s| || n == 0
    ensures forall k :: i <= k < i + n ==> IsSpace(s[k])
    ensures i + n < |s| ==> !IsSpace(s[i + n])
    decreases |s| - i
  {
    if i < |s| && IsSpace(s[i]) then 1 + SpaceRun(s, i + 1) else 0
  }

  lemma {:induction false} DigitRunExact(s: string, i: nat, n: nat)
    requires i + n <= |s| && forall k :: i <= k < i + n ==> IsDigit(s[k])
    requires i + n == |s| || !IsDigit(s[i + n])
    ensures DigitRun(s, i) == n
    decreases n
  {
    if n > 0 {
      DigitRunExact(s, i + 1, n - 1);
    }
  }

  lemma {:induction false} SpaceRunExact(s: string, i: nat, n: nat)
    requires i + n <= |s| && forall k :: i <= k < i + n ==> IsSpace(s[k])
    requires i + n == |s| || !IsSpace(s[i + n])
    ensures SpaceRun(s, i) == n
    decreases n
  {
    if n > 0 {
      SpaceRunExact(s, i + 1, n - 1);
    }
  }

  /** The text up to the first `c`, or all but the last character when
      there is none (a slice to -1), holds no `c`. */
  lemma SliceToFirst(s: string, c: char)
    ensures c !in SliceTo(s, Find(s, [c]))
  {
    if Find(s, [c]) >= 0 {
      BeforeFirst(s, c);
    } else {
      Absent(s, c);
    }
  }

  /** A character `Find` does not find is absent. */
  lemma Absent(s: string, c: char)
    requires Find(s, [c]) == -1
    ensures c !in s
  {
    forall j | 0 <= j < |s| ensures s[j] != c {
      assert !OccursAt(s, [c], j);
      assert s[j..j + 1][0] == s[j];
    }
  }

  /** The first `c` of `x + [c] + y` ends `x` when `x` has none. */
  lemma FirstOccurrence(x: string, c: char, y: string)
    requires c !in x
    ensures Find(x + [c] + y, [c]) == |x|
  {
    var s := x + [c] + y;
    assert OccursAt(s, [c], |x|);
    forall j | 0 <= j < |x|
      ensures !OccursAt(s, [c], j)
    {
      assert s[j..j + 1][0] == x[j];
    }
  }

  /** Joining on a character that no part contains, then splitting on it,
      gives back the parts. */
  lemma {:induction false} SplitJoin(parts: seq<string>, c: char)
    requires |parts| >= 1
    requires forall k :: 0 <= k < |parts| ==> c !in parts[k]
    ensures Split(Join(parts, [c]), [c]) == parts
  {
    if |parts| == 1 {
      NoOccurrence(parts[0], c);
    } else {
      var rest := Join(parts[1..], [c]);
      assert Join(parts, [c]) == parts[0] + [c] + rest;
      SplitFirst(parts[0], c, rest);
      assert forall k :: 0 <= k < |parts| - 1 ==> parts[1..][k] == parts[k + 1];
      SplitJoin(parts[1..], c);
      assert parts == [parts[0]] + parts[1..];
    }
  }

  /** Splitting on a character the first part does not contain cuts that
      part off. */
  lemma SplitFirst(x: string, c: char, y: string)
    requires c !in x
    ensures Split(x + [c] + y, [c]) == [x] + Split(y, [c])
  {
    var s := x + [c] + y;
    FirstOccurrence(x, c, y);
    assert s[..|x|] == x;
    assert s[|x| + 1..] == y;
  }
}
