/**
  The line-oriented input of secretsanta.go: the `Input` section reader over
  a scanner. The readers built on it are in module `Readers`.

  The scanner is a sequence of lines with a cursor. `bufio.Scanner.Scan`
  yields the next line or reports the end; `Err` reports a read error, which
  a scanner only has once it has stopped, so the model's `readError` is
  visible only at the end of the lines.
*/
module InputReader {
  import opened Wrappers
  import opened GoStrings

  /** What one call of `Input.Next` yields and leaves behind. */
  datatype Step = Step(line: string, ok: bool, pos: nat, atLines: bool)

  /** A line `Input.Next` passes over without returning: a comment, or a blank line before any content. */
  predicate Skipped(l: string, atLines: bool) {
    IsComment(Trim(l)) || (Trim(l) == "" && !atLines)
  }

  /** The loop of `Input.Next`, from cursor `pos` with flag `atLines`. */
  function Scan(lines: seq<string>, pos: nat, atLines: bool): (r: Step)
    requires pos <= |lines|
    ensures pos <= r.pos <= |lines|
    ensures r.ok ==> pos < r.pos
    decreases |lines| - pos
  {
    if pos == |lines| then Step("", false, pos, atLines)
    else
      var line := Trim(lines[pos]);
      if IsComment(line) then Scan(lines, pos + 1, atLines)
      else if |line| > 0 then Step(line, true, pos + 1, true)
      else if atLines then Step("", false, pos + 1, false)
      else Scan(lines, pos + 1, atLines)
  }

  /**
    A successful `Next` returns the trimmed text of the line just read, which
    is neither empty nor a `//` comment, and leaves the reader inside a section.
  */
  lemma {:induction false} ScanReturnsContent(lines: seq<string>, pos: nat, atLines: bool)
    requires pos <= |lines|
    requires Scan(lines, pos, atLines).ok
    ensures Scan(lines, pos, atLines).line == Trim(lines[Scan(lines, pos, atLines).pos - 1])
    ensures Scan(lines, pos, atLines).line != "" && !IsComment(Scan(lines, pos, atLines).line)
    ensures Scan(lines, pos, atLines).atLines
    decreases |lines| - pos
  {
    var line := Trim(lines[pos]);
    if IsComment(line) || (|line| == 0 && !atLines) {
      assert Scan(lines, pos, atLines) == Scan(lines, pos + 1, atLines);
      ScanReturnsContent(lines, pos + 1, atLines);
    } else {
      assert Scan(lines, pos, atLines) == Step(line, true, pos + 1, true);
    }
  }

  /** Every line `Next` passes over before the one it stops at is skippable. */
  lemma {:induction false} ScanSkips(lines: seq<string>, pos: nat, atLines: bool)
    requires pos <= |lines|
    ensures forall k :: pos <= k < Scan(lines, pos, atLines).pos - 1 ==> Skipped(lines[k], atLines)
    decreases |lines| - pos
  {
    if pos < |lines| {
      var line := Trim(lines[pos]);
      if IsComment(line) || (|line| == 0 && !atLines) {
        assert Scan(lines, pos, atLines) == Scan(lines, pos + 1, atLines);
        ScanSkips(lines, pos + 1, atLines);
      } else {
        assert Scan(lines, pos, atLines).pos == pos + 1;
      }
    }
  }

  /**
    An unsuccessful `Next` returns `("", false)` in one of two ways: at the end
    of the input, with the flag untouched and every remaining line skippable;
    or at a blank line inside a section, which resets the flag.
  */
  lemma {:induction false} ScanStops(lines: seq<string>, pos: nat, atLines: bool)
    requires pos <= |lines|
    requires !Scan(lines, pos, atLines).ok
    ensures Scan(lines, pos, atLines).line == ""
    ensures var r := Scan(lines, pos, atLines);
      || (r.pos == |lines| && r.atLines == atLines && forall k :: pos <= k < |lines| ==> Skipped(lines[k], atLines))
      || (atLines && !r.atLines && pos < r.pos && Trim(lines[r.pos - 1]) == "")
    decreases |lines| - pos
  {
    if pos < |lines| {
      var line := Trim(lines[pos]);
      if IsComment(line) || (|line| == 0 && !atLines) {
        var r := Scan(lines, pos + 1, atLines);
        assert Scan(lines, pos, atLines) == r;
        ScanStops(lines, pos + 1, atLines);
        if r.pos == |lines| && r.atLines == atLines {
          assert Skipped(lines[pos], atLines);
        }
      } else {
        assert Scan(lines, pos, atLines) == Step("", false, pos + 1, false);
      }
    }
  }

  /**
    The section reader: a scanner over `lines` (cursor `pos`) and the
    `atLines` flag, set while inside a section.
  */
  class Input {
    const lines: seq<string>
    const readError: Option<string>
    var pos: nat
    var atLines: bool

    ghost predicate Valid()
      reads this
    {
      pos <= |lines|
    }

    constructor (lines: seq<string>, readError: Option<string>)
      ensures Valid() && this.lines == lines && this.readError == readError
      ensures pos == 0 && !atLines
    {
      this.lines := lines;
      this.readError := readError;
      pos := 0;
      atLines := false;
    }

    /** `Input.Next`: the next line of the current section, or `("", false)` at its end. */
    method Next() returns (line: string, ok: bool)
      requires Valid()
      modifies this
      ensures Valid()
      ensures Step(line, ok, pos, atLines) == Scan(lines, old(pos), old(atLines))
    {
      while pos < |lines|
        invariant Valid()
        invariant Scan(lines, pos, atLines) == Scan(lines, old(pos), old(atLines))
      {
        var l := Trim(lines[pos]);
        pos := pos + 1;
        if IsComment(l) {
          continue;
        }
        if |l| > 0 {
          atLines := true;
          return l, true;
        }
        if atLines {
          atLines := false;
          return "", false;
        }
      }
      return "", false;
    }

    /** `Input.Err`: the scanner's read error, which exists only once the scanner has run out of lines. */
    function Err(): (e: Option<string>)
      reads this
      ensures e.Some? ==> pos == |lines| && e == readError
    {
      if pos == |lines| then readError else None
    }
  }

  // ---------------------------------------------------------------------------
  // Sections
  // ---------------------------------------------------------------------------

  /** The lines of one section and where the reader is left afterwards. */
  datatype Section = Section(entries: seq<string>, pos: nat, atLines: bool)

  /** The lines returned by calling `Next` until it reports the end of the section. */
  function SectionOf(lines: seq<string>, pos: nat, atLines: bool): (s: Section)
    requires pos <= |lines|
    ensures pos <= s.pos <= |lines|
    decreases |lines| - pos
  {
    var r := Scan(lines, pos, atLines);
    if !r.ok then Section([], r.pos, r.atLines)
    else
      var rest := SectionOf(lines, r.pos, r.atLines);
      Section([r.line] + rest.entries, rest.pos, rest.atLines)
  }

  /** A line as a section hands it out: trimmed, non-empty and not a comment. */
  predicate IsEntry(e: string) {
    e != "" && Trim(e) == e && !IsComment(e)
  }

  /** Every line of a section is trimmed, non-empty and not a comment. */
  lemma {:induction false} SectionEntries(lines: seq<string>, pos: nat, atLines: bool)
    requires pos <= |lines|
    ensures forall i :: 0 <= i < |SectionOf(lines, pos, atLines).entries| ==> IsEntry(SectionOf(lines, pos, atLines).entries[i])
    decreases |lines| - pos
  {
    var r := Scan(lines, pos, atLines);
    if r.ok {
      var rest := SectionOf(lines, r.pos, r.atLines);
      var s := SectionOf(lines, pos, atLines);
      assert s.entries == [r.line] + rest.entries;
      ScanReturnsContent(lines, pos, atLines);
      assert Trim(r.line) == r.line by { TrimIdempotent(lines[r.pos - 1]); }
      SectionEntries(lines, r.pos, r.atLines);
      forall i | 0 <= i < |s.entries| ensures IsEntry(s.entries[i]) {
        if i > 0 { assert s.entries[i] == rest.entries[i - 1]; }
      }
    }
  }

  /** After a section the reader is at the end of the input or outside any section. */
  lemma {:induction false} SectionEnd(lines: seq<string>, pos: nat, atLines: bool)
    requires pos <= |lines|
    ensures SectionOf(lines, pos, atLines).pos == |lines| || !SectionOf(lines, pos, atLines).atLines
    decreases |lines| - pos
  {
    var r := Scan(lines, pos, atLines);
    if r.ok {
      SectionEnd(lines, r.pos, r.atLines);
    } else {
      ScanStops(lines, pos, atLines);
    }
  }

  /** One call of `Next` peels the first line off the rest of the section. */
  lemma SectionUnfold(lines: seq<string>, pos: nat, atLines: bool)
    requires pos <= |lines|
    ensures var r, s := Scan(lines, pos, atLines), SectionOf(lines, pos, atLines);
      && (r.ok ==> s == Section([r.line] + SectionOf(lines, r.pos, r.atLines).entries,
                              SectionOf(lines, r.pos, r.atLines).pos, SectionOf(lines, r.pos, r.atLines).atLines))
      && (!r.ok ==> s == Section([], r.pos, r.atLines))
  {
  }

  /** What a section reader yields, and where it leaves the reader. */
  datatype Read<T> = Read(result: Result<T>, pos: nat, atLines: bool)

  /** The values a loop makes of the lines of a section, and where it leaves the reader. */
  datatype Mapped<T> = Mapped(values: seq<T>, pos: nat, atLines: bool)

  /**
    A loop over the rest of a section that turns each line into a value with
    `f`, from reader state `(pos, atLines)` with the values `acc` made so far.
  */
  function Collect<T>(lines: seq<string>, pos: nat, atLines: bool, f: string -> T, acc: seq<T>): (o: Mapped<T>)
    requires pos <= |lines|
    ensures o.pos <= |lines|
    decreases |lines| - pos
  {
    var s := Scan(lines, pos, atLines);
    if !s.ok then Mapped(acc, s.pos, s.atLines)
    else Collect(lines, s.pos, s.atLines, f, acc + [f(s.line)])
  }

  /** `f` applied to each of `entries`. */
  function Each<T>(f: string -> T, entries: seq<string>): (r: seq<T>)
    ensures |r| == |entries|
  {
    if entries == [] then [] else [f(entries[0])] + Each(f, entries[1..])
  }

  /** The `i`-th value is made from the `i`-th line. */
  lemma {:induction false} EachAt<T>(f: string -> T, entries: seq<string>)
    ensures forall i :: 0 <= i < |entries| ==> Each(f, entries)[i] == f(entries[i])
  {
    if entries != [] {
      var tail := entries[1..];
      EachAt(f, tail);
      assert forall i :: 0 < i < |entries| ==> entries[i] == tail[i - 1];
    }
  }

  /**
    The loop appends the value of every line of the section, in order, and
    leaves the reader where the section ends.
  */
  lemma {:induction false} CollectSection<T>(lines: seq<string>, pos: nat, atLines: bool, f: string -> T, acc: seq<T>)
    requires pos <= |lines|
    ensures var o, sec := Collect(lines, pos, atLines, f, acc), SectionOf(lines, pos, atLines);
      o == Mapped(acc + Each(f, sec.entries), sec.pos, sec.atLines)
    decreases |lines| - pos
  {
    var s := Scan(lines, pos, atLines);
    SectionUnfold(lines, pos, atLines);
    if s.ok {
      var x := f(s.line);
      var rest := SectionOf(lines, s.pos, s.atLines).entries;
      CollectSection(lines, s.pos, s.atLines, f, acc + [x]);
      assert ([s.line] + rest)[0] == s.line && ([s.line] + rest)[1..] == rest;
      assert (acc + [x]) + Each(f, rest) == acc + ([x] + Each(f, rest));
    } else {
      assert acc + [] == acc;
    }
  }
}
