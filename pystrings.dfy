/**
  The Python `str` operations the rsync wrapper relies on (`startswith`,
  `in`, `strip`, `rstrip(c)`, `replace(p, '')`, `split(sep, 1)` and
  `split(sep)`), written out on `seq<char>` so that their edge cases are
  explicit, each with a contract that characterises its result.
*/
module PyStrings {

  // ---------------------------------------------------------------------
  // startswith and substring search
  // ---------------------------------------------------------------------

  /** `s.startswith(p)` */
  predicate StartsWith(s: string, p: string) {
    |p| <= |s| && s[..|p|] == p
  }

  /** `p` occurs in `s` at index `i`. */
  predicate OccursAt(s: string, p: string, i: int) {
    0 <= i && i + |p| <= |s| && s[i..i + |p|] == p
  }

  /** `p in s`, scanning `s` from the left. */
  predicate Contains(s: string, p: string)
    decreases |s|
  {
    StartsWith(s, p) || (|s| > 0 && Contains(s[1..], p))
  }

  lemma {:induction false} ContainsGivesOccurrence(s: string, p: string)
    requires Contains(s, p)
    ensures exists i :: OccursAt(s, p, i)
    decreases |s|
  {
    if StartsWith(s, p) {
      assert OccursAt(s, p, 0);
    } else {
      ContainsGivesOccurrence(s[1..], p);
      var i :| OccursAt(s[1..], p, i);
      assert s[1..][i..i + |p|] == s[i + 1..i + 1 + |p|];
      assert OccursAt(s, p, i + 1);
    }
  }

  lemma {:induction false} OccurrenceGivesContains(s: string, p: string, i: int)
    requires OccursAt(s, p, i)
    ensures Contains(s, p)
    decreases i
  {
    if i > 0 {
      assert s[1..][i - 1..i - 1 + |p|] == s[i..i + |p|];
      OccurrenceGivesContains(s[1..], p, i - 1);
    }
  }

  /** The recursive scan agrees with the index-based meaning of `p in s`. */
  lemma ContainsIffOccurs(s: string, p: string)
    ensures Contains(s, p) <==> exists i :: OccursAt(s, p, i)
  {
    if Contains(s, p) {
      ContainsGivesOccurrence(s, p);
    }
    forall i | OccursAt(s, p, i)
      ensures Contains(s, p)
    {
      OccurrenceGivesContains(s, p, i);
    }
  }

  /** A prefix of a string occurs in it. */
  lemma {:induction false} StartsWithContains(s: string, p: string)
    requires StartsWith(s, p)
    ensures Contains(s, p)
  {
  }

  /** Text occurring in `b` occurs in `a + b`. */
  lemma {:induction false} ContainsInSuffix(a: string, b: string, p: string)
    requires Contains(b, p)
    ensures Contains(a + b, p)
    decreases |a|
  {
    if a != [] {
      assert (a + b)[1..] == a[1..] + b;
      ContainsInSuffix(a[1..], b, p);
    } else {
      assert a + b == b;
    }
  }

  // ---------------------------------------------------------------------
  // strip()
  // ---------------------------------------------------------------------

  /** The characters Python's `str.strip()` removes when given no argument
      (`str.isspace`): ASCII tab, line feed, vertical tab, form feed,
      carriage return, the four information separators, space, and the
      Unicode space and line/paragraph separators. */
  const Whitespace: set<char> := {
    '\t', '\n', '\U{0B}', '\U{0C}', '\r', '\U{1C}', '\U{1D}', '\U{1E}', '\U{1F}', ' ',
    '\U{85}', '\U{A0}', '\U{1680}',
    '\U{2000}', '\U{2001}', '\U{2002}', '\U{2003}', '\U{2004}', '\U{2005}',
    '\U{2006}', '\U{2007}', '\U{2008}', '\U{2009}', '\U{200A}',
    '\U{2028}', '\U{2029}', '\U{202F}', '\U{205F}', '\U{3000}'
  }

  predicate IsSpace(c: char) {
    c in Whitespace
  }

  predicate AllSpace(s: string) {
    forall k :: 0 <= k < |s| ==> IsSpace(s[k])
  }

  /** The number of whitespace characters `s` starts with. */
  function LeadingSpaces(s: string): (n: nat)
    ensures n <= |s|
    decreases |s|
  {
    if |s| > 0 && IsSpace(s[0]) then LeadingSpaces(s[1..]) + 1 else 0
  }

  /** The leading run is all whitespace and is followed by a non-space. */
  lemma {:induction false} LeadingSpacesSpec(s: string)
    ensures var n := LeadingSpaces(s);
      AllSpace(s[..n]) && (n == |s| || !IsSpace(s[n]))
    decreases |s|
  {
    if |s| > 0 && IsSpace(s[0]) {
      LeadingSpacesSpec(s[1..]);
      var n := LeadingSpaces(s[1..]);
      assert s[..n + 1] == [s[0]] + s[1..][..n];
    }
  }

  /** `s.lstrip()`: `s` without its leading whitespace. */
  function StripLeft(s: string): string {
    s[LeadingSpaces(s)..]
  }

  /** `s.rstrip()`: `s` without its trailing whitespace. */
  function StripRight(s: string): (r: string)
    ensures |r| <= |s|
    decreases |s|
  {
    if |s| > 0 && IsSpace(s[|s| - 1]) then StripRight(s[..|s| - 1]) else s
  }

  /** `s.rstrip()` is the longest prefix of `s` not ending in whitespace. */
  lemma {:induction false} StripRightSpec(s: string)
    ensures var r := StripRight(s);
      r <= s && AllSpace(s[|r|..]) && (r == [] || !IsSpace(r[|r| - 1]))
    decreases |s|
  {
    if |s| > 0 && IsSpace(s[|s| - 1]) {
      StripRightSpec(s[..|s| - 1]);
      var r := StripRight(s[..|s| - 1]);
      assert s[|r|..] == s[..|s| - 1][|r|..] + [s[|s| - 1]];
    }
  }

  /** `s` splits as `s[..lo]`, `r`, and the rest, with only spaces outside `r`. */
  predicate StrippedAt(s: string, r: string, lo: int) {
    0 <= lo && lo + |r| <= |s| && r == s[lo..lo + |r|]
    && AllSpace(s[..lo]) && AllSpace(s[lo + |r|..])
  }

  /** `s.strip()` */
  function Strip(s: string): string {
    StripRight(StripLeft(s))
  }

  /** `s.strip()` removes only whitespace, and only at the two ends. */
  lemma StripShape(s: string)
    ensures StrippedAt(s, Strip(s), LeadingSpaces(s))
  {
    var lo := LeadingSpaces(s);
    LeadingSpacesSpec(s);
    StripRightSpec(s[lo..]);
    InnerPart(s, lo, StripRight(s[lo..]));
  }

  lemma InnerPart(s: string, lo: nat, r: string)
    requires lo <= |s| && r <= s[lo..] && AllSpace(s[lo..][|r|..])
    ensures lo + |r| <= |s| && r == s[lo..lo + |r|] && AllSpace(s[lo + |r|..])
  {
    assert s[lo..][|r|..] == s[lo + |r|..];
  }

  /** What `s.strip()` leaves neither starts nor ends with whitespace. */
  lemma StripEnds(s: string)
    ensures var r := Strip(s); r == [] || (!IsSpace(r[0]) && !IsSpace(r[|r| - 1]))
  {
    var lo := LeadingSpaces(s);
    var left := s[lo..];
    LeadingSpacesSpec(s);
    StripRightSpec(left);
    var r := StripRight(left);
    assert r != [] ==> r[0] == left[0] == s[lo];
  }

  /** Stripping twice is stripping once. */
  lemma StripIdempotent(s: string)
    ensures Strip(Strip(s)) == Strip(s)
  {
    var r := Strip(s);
    StripEnds(s);
    assert LeadingSpaces(r) == 0;
    assert r[0..] == r;
  }

  /** A line strips to nothing exactly when it is all whitespace. */
  lemma StripEmptyIff(s: string)
    ensures Strip(s) == [] <==> AllSpace(s)
  {
    var lo := LeadingSpaces(s);
    var left := s[lo..];
    LeadingSpacesSpec(s);
    StripRightSpec(left);
    if AllSpace(s) {
      assert lo == |s|;
      assert left == [];
    }
    if Strip(s) == [] {
      assert AllSpace(left[0..]);
      assert lo == |s|;
      assert s[..|s|] == s;
    }
  }

  // ---------------------------------------------------------------------
  // rstrip(c)
  // ---------------------------------------------------------------------

  /** `s.rstrip(c)` for a single character `c`: the longest prefix of `s`
      that does not end in `c`. */
  function RStripChar(s: string, c: char): (r: string)
    ensures r <= s
    ensures forall k :: |r| <= k < |s| ==> s[k] == c
    ensures r == [] || r[|r| - 1] != c
    decreases |s|
  {
    if |s| > 0 && s[|s| - 1] == c then RStripChar(s[..|s| - 1], c) else s
  }

  /** The three properties of `RStripChar` determine its result. */
  lemma RStripCharUnique(s: string, c: char, t: string)
    requires t <= s
    requires forall k :: |t| <= k < |s| ==> s[k] == c
    requires t == [] || t[|t| - 1] != c
    ensures t == RStripChar(s, c)
  {
    var r := RStripChar(s, c);
    assert forall k :: 0 <= k < |r| ==> r[k] == s[k];
    assert forall k :: 0 <= k < |t| ==> t[k] == s[k];
    assert |t| >= |r|;
    assert |r| >= |t|;
  }

  /** One more trailing `c` changes nothing. */
  lemma RStripCharAppend(s: string, c: char)
    ensures RStripChar(s + [c], c) == RStripChar(s, c)
  {
    assert (s + [c])[..|s|] == s;
  }

  lemma RStripCharIdempotent(s: string, c: char)
    ensures RStripChar(RStripChar(s, c), c) == RStripChar(s, c)
  {
  }

  // ---------------------------------------------------------------------
  // replace(p, '')
  // ---------------------------------------------------------------------

  /** `s.replace(p, '')`: every occurrence of `p`, found left to right
      without overlap, is deleted. */
  function RemoveAll(s: string, p: string): (r: string)
    requires |p| > 0
    ensures |r| <= |s|
    decreases |s|
  {
    if StartsWith(s, p) then RemoveAll(s[|p|..], p)
    else if |s| == 0 then s
    else [s[0]] + RemoveAll(s[1..], p)
  }

  /** Text that does not contain `p` is left as it is. */
  lemma {:induction false} RemoveAllAbsent(s: string, p: string)
    requires |p| > 0
    requires !Contains(s, p)
    ensures RemoveAll(s, p) == s
    decreases |s|
  {
    if |s| > 0 {
      RemoveAllAbsent(s[1..], p);
    }
  }

  /** A leading occurrence of `p` is deleted and the scan continues after it. */
  lemma RemoveAllLeading(p: string, t: string)
    requires |p| > 0
    ensures RemoveAll(p + t, p) == RemoveAll(t, p)
  {
    assert (p + t)[..|p|] == p;
    assert (p + t)[|p|..] == t;
  }

  /** The first occurrence of `p` is deleted, the text before it is kept,
      and the scan resumes right after it; with `RemoveAllAbsent` this
      determines `replace(p, '')` on every input. */
  lemma RemoveAllFirst(s: string, p: string, i: nat)
    requires |p| > 0
    requires OccursAt(s, p, i)
    requires forall j :: 0 <= j < i ==> !OccursAt(s, p, j)
    ensures RemoveAll(s, p) == s[..i] + RemoveAll(s[i + |p|..], p)
  {
    var a, b := s[..i], s[i + |p|..];
    assert s == a + p + b;
    RemoveAllAfter(a, p, b);
  }

  /** Text `a` in which no occurrence of `p` starts is kept, the `p` after
      it is deleted, and the scan goes on with `b`. */
  lemma {:induction false} RemoveAllAfter(a: string, p: string, b: string)
    requires |p| > 0
    requires forall j :: 0 <= j < |a| ==> !OccursAt(a + p + b, p, j)
    ensures RemoveAll(a + p + b, p) == a + RemoveAll(b, p)
    decreases |a|
  {
    var s := a + p + b;
    if a == [] {
      assert s == p + b;
      RemoveAllLeading(p, b);
    } else {
      assert s[1..] == a[1..] + p + b;
      StartsWithAtZero(s, p);
      NoneEarlierInTail(s, p, |a|);
      RemoveAllAfter(a[1..], p, b);
      RemoveAllKeeps(s, p);
      AppendAssoc([a[0]], a[1..], RemoveAll(b, p));
      assert [a[0]] + a[1..] == a;
    }
  }

  lemma AppendAssoc(a: string, b: string, c: string)
    ensures a + (b + c) == (a + b) + c
  {
  }

  /** `startswith` is an occurrence at index 0. */
  lemma StartsWithAtZero(s: string, p: string)
    ensures StartsWith(s, p) <==> OccursAt(s, p, 0)
  {
    if |p| <= |s| {
      assert s[0..|p|] == s[..|p|];
    }
  }

  /** Where `p` does not start, the first character is kept. */
  lemma RemoveAllKeeps(s: string, p: string)
    requires |p| > 0 && |s| > 0 && !StartsWith(s, p)
    ensures RemoveAll(s, p) == [s[0]] + RemoveAll(s[1..], p)
  {
  }

  lemma NoneEarlierInTail(s: string, p: string, i: nat)
    requires 0 < i <= |s|
    requires forall j :: 0 <= j < i ==> !OccursAt(s, p, j)
    ensures forall j :: 0 <= j < i - 1 ==> !OccursAt(s[1..], p, j)
  {
    forall j | 0 <= j < i - 1
      ensures !OccursAt(s[1..], p, j)
    {
      assert !OccursAt(s, p, j + 1);
      OccursInTail(s, p, j);
    }
  }

  /** An occurrence in `s` past index 0 is one in `s[1..]`, one place earlier. */
  lemma OccursInTail(s: string, p: string, j: nat)
    requires |s| > 0
    ensures OccursAt(s[1..], p, j) <==> OccursAt(s, p, j + 1)
  {
    if j + 1 + |p| <= |s| {
      assert s[1..][j..j + |p|] == s[j + 1..j + 1 + |p|];
    }
  }

  // ---------------------------------------------------------------------
  // split(sep, 1) and split(sep)
  // ---------------------------------------------------------------------

  /** `s.split(sep, 1)`: `[s]` when `sep` does not occur, otherwise the text
      before the first `sep` and the text after it. */
  function SplitFirst(s: string, sep: char): (parts: seq<string>)
    ensures |parts| == 1 || |parts| == 2
    decreases |s|
  {
    if |s| == 0 then [s]
    else if s[0] == sep then ["", s[1..]]
    else
      var rest := SplitFirst(s[1..], sep);
      if |rest| == 1 then [s] else [[s[0]] + rest[0], rest[1]]
  }

  /** There are two parts exactly when `sep` occurs; then they are the text
      around its first occurrence, otherwise the one part is `s`. */
  lemma {:induction false} SplitFirstSpec(s: string, sep: char)
    ensures var parts := SplitFirst(s, sep);
      && (|parts| == 1 <==> sep !in s)
      && (|parts| == 1 ==> parts[0] == s)
      && (|parts| == 2 ==> s == parts[0] + [sep] + parts[1] && sep !in parts[0])
    decreases |s|
  {
    if |s| > 0 {
      assert s == [s[0]] + s[1..];
      if s[0] != sep {
        SplitFirstSpec(s[1..], sep);
      }
    }
  }

  /** Splitting at a first separator recovers both sides. */
  lemma {:induction false} SplitFirstAt(a: string, sep: char, b: string)
    requires sep !in a
    ensures SplitFirst(a + [sep] + b, sep) == [a, b]
    decreases |a|
  {
    var s := a + [sep] + b;
    if a == [] {
      assert s[1..] == b;
    } else {
      assert s[1..] == a[1..] + [sep] + b;
      SplitFirstAt(a[1..], sep, b);
      assert [s[0]] + a[1..] == a;
    }
  }

  /** `s.split(sep)`: the pieces of `s` between separators, in order. */
  function SplitOn(s: string, sep: char): (parts: seq<string>)
    ensures |parts| >= 1
    ensures forall k :: 0 <= k < |parts| ==> sep !in parts[k]
    decreases |s|
  {
    var first := SplitFirst(s, sep);
    SplitFirstSpec(s, sep);
    if |first| == 1 then [s] else [first[0]] + SplitOn(first[1], sep)
  }

  /** `sep.join(parts)` */
  function Join(parts: seq<string>, sep: char): string
    requires |parts| >= 1
  {
    if |parts| == 1 then parts[0] else parts[0] + [sep] + Join(parts[1..], sep)
  }

  /** Joining the pieces with the separator gives back the text. */
  lemma {:induction false} JoinSplit(s: string, sep: char)
    ensures Join(SplitOn(s, sep), sep) == s
    decreases |s|
  {
    var first := SplitFirst(s, sep);
    SplitFirstSpec(s, sep);
    if |first| == 2 {
      JoinSplit(first[1], sep);
      var parts := SplitOn(s, sep);
      assert parts[1..] == SplitOn(first[1], sep);
    }
  }

  /** Pieces free of the separator are recovered by splitting their join. */
  lemma {:induction false} SplitJoin(parts: seq<string>, sep: char)
    requires |parts| >= 1
    requires forall k :: 0 <= k < |parts| ==> sep !in parts[k]
    ensures SplitOn(Join(parts, sep), sep) == parts
    decreases |parts|
  {
    if |parts| > 1 {
      assert sep !in parts[0];
      SplitFirstAt(parts[0], sep, Join(parts[1..], sep));
      SplitJoin(parts[1..], sep);
      assert [parts[0]] + parts[1..] == parts;
    } else {
      SplitFirstSpec(parts[0], sep);
    }
  }
}
