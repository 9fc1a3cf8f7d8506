/**
  The parts of Go's `strings` package (and of Go's string ordering) that the
  secret-santa program relies on, written out over `seq<char>`.
  Go strings are UTF-8 byte strings; here a string is a sequence of Unicode
  scalar values, and the lexicographic order on code points coincides with
  Go's bytewise order on their UTF-8 encodings.
*/
module GoStrings {

  // ---------------------------------------------------------------------------
  // strings.Trim(s, " \t")
  // ---------------------------------------------------------------------------

  /** The cut set passed to every `strings.Trim` call of the program. */
  predicate IsSpace(c: char) {
    c == ' ' || c == '\t'
  }

  predicate AllSpace(s: string) {
    forall c :: c in s ==> IsSpace(c)
  }

  /** `strings.TrimRight(s, " \t")`: the prefix of `s` before its trailing spaces and tabs. */
  function TrimRight(s: string): (r: string)
    ensures |r| <= |s| && r == s[..|r|]
    ensures r != [] ==> !IsSpace(r[|r| - 1]) && r[0] == s[0]
  {
    if |s| > 0 && IsSpace(s[|s| - 1]) then TrimRight(s[..|s| - 1]) else s
  }

  /** What `TrimRight` cuts off is spaces and tabs. */
  lemma {:induction false} TrimRightSpaces(s: string)
    ensures AllSpace(s[|TrimRight(s)|..])
  {
    if |s| > 0 && IsSpace(s[|s| - 1]) {
      var r := TrimRight(s[..|s| - 1]);
      TrimRightSpaces(s[..|s| - 1]);
      assert s[|r|..] == s[..|s| - 1][|r|..] + [s[|s| - 1]];
    }
  }

  /**
    `strings.Trim(s, " \t")`: `s` with its leading and trailing spaces and tabs
    removed; a non-empty result neither starts nor ends with a space or a tab.
  */
  function Trim(s: string): (r: string)
    ensures |r| <= |s|
    ensures r != [] ==> !IsSpace(r[0]) && !IsSpace(r[|r| - 1])
  {
    if |s| > 0 && IsSpace(s[0]) then Trim(s[1..]) else TrimRight(s)
  }

  /** `Trim` gives the empty string exactly for a string of spaces and tabs. */
  lemma {:induction false} TrimEmpty(s: string)
    ensures Trim(s) == [] <==> AllSpace(s)
  {
    if |s| > 0 && IsSpace(s[0]) {
      TrimEmpty(s[1..]);
      assert s == [s[0]] + s[1..];
    } else if s != [] {
      TrimRightSpaces(s);
      assert s[0] in s;
    }
  }

  /** The number of spaces and tabs `Trim` removes from the front of `s`. */
  function LeadingSpace(s: string): (n: nat)
    ensures n <= |s|
  {
    if |s| > 0 && IsSpace(s[0]) then 1 + LeadingSpace(s[1..]) else 0
  }

  /** The trimmed string is the slice of `s` that starts after its leading spaces and tabs. */
  lemma {:induction false} TrimSlice(s: string)
    ensures var i, r := LeadingSpace(s), Trim(s);
      i + |r| <= |s| && s[i..i + |r|] == r
  {
    if |s| > 0 && IsSpace(s[0]) {
      var t := s[1..];
      var i, r := LeadingSpace(t), Trim(t);
      TrimSlice(t);
      assert s[i + 1..i + 1 + |r|] == t[i..i + |r|] by {
        forall k | i <= k < i + |r| ensures t[k] == s[k + 1] { }
      }
    } else {
      assert s[0..0 + |TrimRight(s)|] == TrimRight(s);
    }
  }

  /** What `Trim` removes, before and after that slice, is spaces and tabs only. */
  lemma {:induction false} TrimCutsSpaces(s: string)
    ensures var i, r := LeadingSpace(s), Trim(s);
      i + |r| <= |s| && AllSpace(s[..i]) && AllSpace(s[i + |r|..])
  {
    if |s| > 0 && IsSpace(s[0]) {
      var t := s[1..];
      var i, r := LeadingSpace(t), Trim(t);
      TrimCutsSpaces(t);
      assert s[i + 1 + |r|..] == t[i + |r|..];
      assert s[..i + 1] == [s[0]] + t[..i];
    } else {
      TrimRightSpaces(s);
    }
  }

  /** A string that neither starts nor ends with a space or a tab is its own trim. */
  lemma TrimFixed(s: string)
    requires s != [] ==> !IsSpace(s[0]) && !IsSpace(s[|s| - 1])
    ensures Trim(s) == s
  {
    assert TrimRight(s) == s;
  }

  /** Trimming twice is trimming once. */
  lemma TrimIdempotent(s: string)
    ensures Trim(Trim(s)) == Trim(s)
  {
    TrimFixed(Trim(s));
  }

  // ---------------------------------------------------------------------------
  // strings.HasPrefix(line, "//")
  // ---------------------------------------------------------------------------

  predicate IsComment(line: string) {
    |line| >= 2 && line[..2] == "//"
  }

  // ---------------------------------------------------------------------------
  // strings.Index(s, ":") for a one-character needle
  // ---------------------------------------------------------------------------

  /** `strings.Index(s, [c])`: the position of the first `c` in `s`, or -1 if there is none. */
  function IndexOf(s: string, c: char): (r: int)
    ensures -1 <= r < |s|
    ensures r == -1 <==> c !in s
    ensures r >= 0 ==> s[r] == c && c !in s[..r]
  {
    if |s| == 0 then -1
    else if s[0] == c then 0
    else
      var k := IndexOf(s[1..], c);
      if k == -1 then -1
      else
        assert s[..k + 1] == [s[0]] + s[1..][..k];
        k + 1
  }

  // ---------------------------------------------------------------------------
  // strings.Split(s, ",") and its inverse
  // ---------------------------------------------------------------------------

  /** Concatenation of `parts` with `sep` between neighbours (Go's `strings.Join`). */
  function Join(parts: seq<string>, sep: string): string {
    if |parts| == 0 then ""
    else if |parts| == 1 then parts[0]
    else parts[0] + sep + Join(parts[1..], sep)
  }

  /**
    `strings.Split(s, [sep])`: the pieces of `s` between occurrences of `sep`.
    There is always at least one piece (the empty string gives `[""]`) and no
    piece contains the separator.
  */
  function Split(s: string, sep: char): (parts: seq<string>)
    ensures |parts| >= 1
    decreases |s|
  {
    var k := IndexOf(s, sep);
    if k == -1 then [s] else [s[..k]] + Split(s[k + 1..], sep)
  }

  /** No piece of a split holds the separator. */
  lemma {:induction false} SplitPieces(s: string, sep: char)
    ensures forall i :: 0 <= i < |Split(s, sep)| ==> sep !in Split(s, sep)[i]
    decreases |s|
  {
    var k := IndexOf(s, sep);
    if k != -1 {
      SplitPieces(s[k + 1..], sep);
      var parts := Split(s, sep);
      assert forall i :: 0 < i < |parts| ==> parts[i] == Split(s[k + 1..], sep)[i - 1];
    }
  }

  /** Joining the pieces back with the separator gives the original string. */
  lemma {:induction false} JoinSplit(s: string, sep: char)
    ensures Join(Split(s, sep), [sep]) == s
    decreases |s|
  {
    var k := IndexOf(s, sep);
    if k != -1 {
      var tail := Split(s[k + 1..], sep);
      JoinSplit(s[k + 1..], sep);
      assert Split(s, sep) == [s[..k]] + tail;
      assert (Split(s, sep))[1..] == tail;
      assert s == s[..k] + [sep] + s[k + 1..];
    }
  }

  /** Splitting a join of separator-free pieces gives the pieces back. */
  lemma {:induction false} SplitJoin(parts: seq<string>, sep: char)
    requires |parts| >= 1
    requires forall i :: 0 <= i < |parts| ==> sep !in parts[i]
    ensures Split(Join(parts, [sep]), sep) == parts
  {
    var s := Join(parts, [sep]);
    if |parts| == 1 {
      assert IndexOf(s, sep) == -1;
    } else {
      var rest := Join(parts[1..], [sep]);
      assert s == parts[0] + [sep] + rest;
      var k := IndexOf(s, sep);
      assert s[|parts[0]|] == sep;
      assert forall j :: 0 <= j < |parts[0]| ==> s[j] == parts[0][j];
      assert s[..k] == parts[0];
      assert s[k + 1..] == rest;
      SplitJoin(parts[1..], sep);
    }
  }

  // ---------------------------------------------------------------------------
  // strings.Replace(s, pat, rep, -1)
  // ---------------------------------------------------------------------------

  predicate OccursAt(s: string, pat: string, i: int) {
    0 <= i && i + |pat| <= |s| && s[i..i + |pat|] == pat
  }

  predicate Contains(s: string, pat: string) {
    exists i :: 0 <= i <= |s| && OccursAt(s, pat, i)
  }

  /** `strings.Replace(s, pat, rep, -1)`: every non-overlapping occurrence of `pat`, leftmost first, replaced by `rep`. */
  function ReplaceAll(s: string, pat: string, rep: string): string
    requires pat != []
    decreases |s|
  {
    if |s| < |pat| then s
    else if s[..|pat|] == pat then rep + ReplaceAll(s[|pat|..], pat, rep)
    else [s[0]] + ReplaceAll(s[1..], pat, rep)
  }

  /** A string without the pattern is left unchanged. */
  lemma {:induction false} ReplaceAbsent(s: string, pat: string, rep: string)
    requires pat != []
    requires !Contains(s, pat)
    ensures ReplaceAll(s, pat, rep) == s
    decreases |s|
  {
    if |s| >= |pat| {
      assert !OccursAt(s, pat, 0);
      forall i | OccursAt(s[1..], pat, i) ensures false {
        assert s[1..][i..i + |pat|] == s[i + 1..i + 1 + |pat|];
        assert OccursAt(s, pat, i + 1);
      }
      ReplaceAbsent(s[1..], pat, rep);
      assert s == [s[0]] + s[1..];
    }
  }

  /** Text without the first character of `pat` is copied as it stands. */
  lemma {:induction false} ReplaceSkips(a: string, r: string, pat: string, rep: string)
    requires pat != [] && pat[0] !in a
    ensures ReplaceAll(a + r, pat, rep) == a + ReplaceAll(r, pat, rep)
    decreases |a|
  {
    if a != [] {
      var s := a + r;
      assert s[1..] == a[1..] + r;
      if |s| >= |pat| { assert s[..|pat|][0] == a[0]; }
      ReplaceSkips(a[1..], r, pat, rep);
      assert a == [a[0]] + a[1..];
    } else {
      assert a + r == r;
    }
  }

  /**
    When no occurrence of `pat` starts inside `a` (even one running into the
    `pat` that follows), the replacement copies `a`, replaces that `pat`, and
    carries on with `b`.
  */
  lemma {:induction false} ReplaceStep(a: string, pat: string, rep: string, b: string)
    requires pat != []
    requires forall i :: 0 <= i < |a| ==> !OccursAt(a + pat, pat, i)
    ensures ReplaceAll(a + pat + b, pat, rep) == a + rep + ReplaceAll(b, pat, rep)
    decreases |a|
  {
    var s := a + pat + b;
    if a == [] {
      assert s[..|pat|] == pat && s[|pat|..] == b;
      assert ReplaceAll(s, pat, rep) == rep + ReplaceAll(b, pat, rep);
    } else {
      assert s[..|pat|] == (a + pat)[0..0 + |pat|];
      assert !OccursAt(a + pat, pat, 0);
      assert s[1..] == a[1..] + pat + b;
      assert ReplaceAll(s, pat, rep) == [a[0]] + ReplaceAll(a[1..] + pat + b, pat, rep);
      NoMatchTail(a, pat);
      ReplaceStep(a[1..], pat, rep, b);
      assert a + rep + ReplaceAll(b, pat, rep) == [a[0]] + (a[1..] + rep + ReplaceAll(b, pat, rep));
    }
  }

  /** No occurrence starting inside `a` means none starting inside `a` without its first character. */
  lemma NoMatchTail(a: string, pat: string)
    requires a != []
    requires forall i :: 0 <= i < |a| ==> !OccursAt(a + pat, pat, i)
    ensures forall i :: 0 <= i < |a| - 1 ==> !OccursAt(a[1..] + pat, pat, i)
  {
    forall i | 0 <= i < |a| - 1
      ensures !OccursAt(a[1..] + pat, pat, i)
    {
      assert !OccursAt(a + pat, pat, i + 1);
      if i + |pat| <= |a| - 1 + |pat| {
        assert (a[1..] + pat)[i..i + |pat|] == (a + pat)[i + 1..i + 1 + |pat|];
      }
    }
  }

  /** A pattern beginning with a character absent from `a` cannot start inside `a`. */
  lemma NoMatchInside(a: string, pat: string)
    requires pat != [] && pat[0] !in a
    ensures forall i :: 0 <= i < |a| ==> !OccursAt(a + pat, pat, i)
  {
    forall i | 0 <= i < |a| ensures !OccursAt(a + pat, pat, i) {
      assert (a + pat)[i] == a[i];
    }
  }

  // ---------------------------------------------------------------------------
  // Go's `<` on strings
  // ---------------------------------------------------------------------------

  /** Go's `a < b` on strings: lexicographic order, a proper prefix coming first. */
  predicate StrLess(a: string, b: string) {
    if |a| == 0 then |b| > 0
    else if |b| == 0 then false
    else if a[0] != b[0] then a[0] < b[0]
    else StrLess(a[1..], b[1..])
  }

  lemma {:induction false} StrLessIrreflexive(a: string)
    ensures !StrLess(a, a)
  {
    if |a| > 0 { StrLessIrreflexive(a[1..]); }
  }

  lemma {:induction false} StrLessTransitive(a: string, b: string, c: string)
    requires StrLess(a, b) && StrLess(b, c)
    ensures StrLess(a, c)
  {
    if |a| > 0 && |b| > 0 && |c| > 0 && a[0] == b[0] && b[0] == c[0] {
      StrLessTransitive(a[1..], b[1..], c[1..]);
    }
  }

  /** Any two different strings are ordered one way round (trichotomy). */
  lemma {:induction false} StrLessTotal(a: string, b: string)
    requires a != b
    ensures StrLess(a, b) || StrLess(b, a)
  {
    if |a| > 0 && |b| > 0 && a[0] == b[0] {
      assert a == [a[0]] + a[1..] && b == [b[0]] + b[1..];
      StrLessTotal(a[1..], b[1..]);
    }
  }

  lemma {:induction false} StrLessAsymmetric(a: string, b: string)
    requires StrLess(a, b)
    ensures !StrLess(b, a)
  {
    if |a| > 0 && |b| > 0 && a[0] == b[0] {
      StrLessAsymmetric(a[1..], b[1..]);
    }
  }
}
