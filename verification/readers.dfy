/**
  The section readers of secretsanta.go built on `Input.Next`:
  `readInPeople`, `readInBadSets`, `readLine` and `readInEmailer`.
*/
module Readers {
  import opened Wrappers
  import opened GoStrings
  import opened People
  import opened Mail
  import opened InputReader

  // ---------------------------------------------------------------------------
  // readInPeople
  // ---------------------------------------------------------------------------

  /** One `name:email` line: split at the first colon, both halves trimmed; `None` when there is no colon. */
  function SplitEntry(line: string): (r: Option<(string, string)>)
    ensures r.None? <==> ':' !in line
  {
    var colon := IndexOf(line, ':');
    if colon == -1 then None else Some((Trim(line[..colon]), Trim(line[colon + 1..])))
  }

  /**
    The loop of `readInPeople` over `entries`, from the table `m` built so far:
    each line is split and stored, a later line overwriting an earlier one with
    the same name; the first line without a colon ends it with an error.
  */
  function ParseFrom(m: map<string, string>, entries: seq<string>): Result<map<string, string>>
    decreases |entries|
  {
    if entries == [] then Ok(m)
    else
      match SplitEntry(entries[0])
      case None => Err("Couldn't find email address in" + entries[0])
      case Some(e) => ParseFrom(m[e.0 := e.1], entries[1..])
  }

  /** The people table a section describes, name to e-mail, or the error for its first line without a colon. */
  function ParsePeople(entries: seq<string>): Result<map<string, string>> {
    ParseFrom(map[], entries)
  }

  /**
    The loop succeeds exactly when every line has a colon; otherwise the error
    names the first line without one.
  */
  lemma {:induction false} ParseFromFails(m: map<string, string>, entries: seq<string>)
    ensures ParseFrom(m, entries).Ok? <==> forall i :: 0 <= i < |entries| ==> ':' in entries[i]
    ensures ParseFrom(m, entries).Err? ==>
      exists i :: 0 <= i < |entries| && ':' !in entries[i]
        && (forall j :: 0 <= j < i ==> ':' in entries[j])
        && ParseFrom(m, entries).error == "Couldn't find email address in" + entries[i]
    decreases |entries|
  {
    if entries != [] && ':' in entries[0] {
      var e := SplitEntry(entries[0]).value;
      var tail := entries[1..];
      ParseFromFails(m[e.0 := e.1], tail);
      assert forall i :: 0 < i < |entries| ==> entries[i] == tail[i - 1];
      if ParseFrom(m, entries).Err? {
        var i :| 0 <= i < |tail| && ':' !in tail[i]
          && (forall j :: 0 <= j < i ==> ':' in tail[j])
          && ParseFrom(m[e.0 := e.1], tail).error == "Couldn't find email address in" + tail[i];
        assert forall j :: 0 <= j < i + 1 ==> ':' in entries[j];
      }
    }
  }

  /** `readInPeople` fails on a section exactly when one of its lines has no colon, and names the first. */
  lemma ParsePeopleFails(entries: seq<string>)
    ensures ParsePeople(entries).Ok? <==> forall i :: 0 <= i < |entries| ==> ':' in entries[i]
    ensures ParsePeople(entries).Err? ==>
      exists i :: 0 <= i < |entries| && ':' !in entries[i]
        && (forall j :: 0 <= j < i ==> ':' in entries[j])
        && ParsePeople(entries).error == "Couldn't find email address in" + entries[i]
  {
    ParseFromFails(map[], entries);
  }

  /** The name and e-mail of every line, for a section whose lines all hold a colon. */
  function Pairs(entries: seq<string>): (r: seq<(string, string)>)
    requires forall i :: 0 <= i < |entries| ==> ':' in entries[i]
    ensures |r| == |entries|
    ensures forall i :: 0 <= i < |entries| ==> SplitEntry(entries[i]) == Some(r[i])
  {
    if entries == [] then []
    else [SplitEntry(entries[0]).value] + Pairs(entries[1..])
  }

  /** The map `m` with each pair stored in turn, a later pair overwriting an earlier one with the same name. */
  function Table(m: map<string, string>, pairs: seq<(string, string)>): map<string, string>
    decreases |pairs|
  {
    if pairs == [] then m
    else Table(m[pairs[0].0 := pairs[0].1], pairs[1..])
  }

  /** The table's keys are those of `m` and the names of the pairs. */
  lemma {:induction false} TableKeys(m: map<string, string>, pairs: seq<(string, string)>)
    ensures forall n :: n in Table(m, pairs) <==> n in m || exists i :: 0 <= i < |pairs| && pairs[i].0 == n
    decreases |pairs|
  {
    if pairs != [] {
      var tail := pairs[1..];
      TableKeys(m[pairs[0].0 := pairs[0].1], tail);
      forall n | n in Table(m, pairs) && n !in m ensures exists i :: 0 <= i < |pairs| && pairs[i].0 == n {
        if n != pairs[0].0 {
          assert n in Table(m[pairs[0].0 := pairs[0].1], tail) && n !in m[pairs[0].0 := pairs[0].1];
          var i :| 0 <= i < |tail| && tail[i].0 == n;
          assert pairs[i + 1] == tail[i];
        }
      }
      forall n, i | 0 <= i < |pairs| && pairs[i].0 == n ensures n in Table(m, pairs) {
        if i > 0 { assert pairs[i] == tail[i - 1]; }
      }
    }
  }

  /** A name maps to the e-mail of its last pair. */
  lemma {:induction false} TableLastWins(m: map<string, string>, pairs: seq<(string, string)>, i: nat)
    requires i < |pairs|
    requires forall j :: i < j < |pairs| ==> pairs[j].0 != pairs[i].0
    ensures pairs[i].0 in Table(m, pairs) && Table(m, pairs)[pairs[i].0] == pairs[i].1
    decreases |pairs|
  {
    var tail := pairs[1..];
    var m' := m[pairs[0].0 := pairs[0].1];
    if i > 0 {
      assert tail[i - 1] == pairs[i];
      forall j | i - 1 < j < |tail| ensures tail[j].0 != tail[i - 1].0 {
        assert tail[j] == pairs[j + 1];
      }
      TableLastWins(m', tail, i - 1);
    } else {
      TableUntouched(m', tail, pairs[0].0);
    }
  }

  /** A name no pair mentions keeps its entry of `m`. */
  lemma {:induction false} TableUntouched(m: map<string, string>, pairs: seq<(string, string)>, n: string)
    requires n in m
    requires forall j :: 0 <= j < |pairs| ==> pairs[j].0 != n
    ensures n in Table(m, pairs) && Table(m, pairs)[n] == m[n]
    decreases |pairs|
  {
    if pairs != [] {
      var tail := pairs[1..];
      assert forall j :: 0 <= j < |tail| ==> tail[j] == pairs[j + 1];
      TableUntouched(m[pairs[0].0 := pairs[0].1], tail, n);
    }
  }

  /** From any table `m`, the loop over lines that all hold a colon stores the lines' pairs into `m`. */
  lemma {:induction false} ParseFromTable(m: map<string, string>, entries: seq<string>)
    requires forall i :: 0 <= i < |entries| ==> ':' in entries[i]
    ensures ParseFrom(m, entries) == Ok(Table(m, Pairs(entries)))
    decreases |entries|
  {
    if entries != [] {
      var p := SplitEntry(entries[0]).value;
      var tail := entries[1..];
      assert forall i :: 0 <= i < |tail| ==> tail[i] == entries[i + 1];
      ParseFromTable(m[p.0 := p.1], tail);
    }
  }

  /** A successful parse is the table of the lines' pairs. */
  lemma ParsePeopleTable(entries: seq<string>)
    requires ParsePeople(entries).Ok?
    ensures forall i :: 0 <= i < |entries| ==> ':' in entries[i]
    ensures ParsePeople(entries).value == Table(map[], Pairs(entries))
  {
    ParseFromFails(map[], entries);
    ParseFromTable(map[], entries);
  }

  /**
    A successful table has one key per name among the section's lines, and
    each name maps to the e-mail on its last line: later lines overwrite
    earlier ones.
  */
  lemma ParsePeopleLastWins(entries: seq<string>)
    requires ParsePeople(entries).Ok?
    ensures forall i :: 0 <= i < |entries| ==> ':' in entries[i]
    ensures var m, p := ParsePeople(entries).value, Pairs(entries);
      && (forall n :: n in m <==> exists i :: 0 <= i < |p| && p[i].0 == n)
      && (forall i :: 0 <= i < |p| && (forall j :: i < j < |p| ==> p[j].0 != p[i].0) ==> m[p[i].0] == p[i].1)
  {
    ParsePeopleTable(entries);
    var p := Pairs(entries);
    TableKeys(map[], p);
    forall i | 0 <= i < |p| && (forall j :: i < j < |p| ==> p[j].0 != p[i].0)
      ensures p[i].0 in Table(map[], p) && Table(map[], p)[p[i].0] == p[i].1
    {
      TableLastWins(map[], p, i);
    }
  }

  /** Each person is filed under its own name (so different keys hold different people). */
  ghost predicate Named(people: map<string, Person>) {
    forall n :: n in people ==> people[n].name == n
  }

  /** The loop of `readInPeople` meets a line: it stops on a line without a colon, or stores it and goes on. */
  lemma ParseFromStep(emails: map<string, string>, line: string, rest: seq<string>)
    ensures ':' !in line ==> ParseFrom(emails, [line] + rest) == Err("Couldn't find email address in" + line)
    ensures ':' in line ==>
      ParseFrom(emails, [line] + rest) == ParseFrom(emails[SplitEntry(line).value.0 := SplitEntry(line).value.1], rest)
  {
    assert ([line] + rest)[0] == line && ([line] + rest)[1..] == rest;
  }

  /** The e-mail table a table of people stands for. */
  function Emails(people: map<string, Person>): (m: map<string, string>)
    ensures m.Keys == people.Keys
  {
    map n | n in people :: people[n].email
  }

  /** Filing a person under a name files its e-mail under that name. */
  lemma EmailsStore(people: map<string, Person>, n: string, p: Person)
    ensures Emails(people[n := p]) == Emails(people)[n := p.email]
  {
  }

  /**
    The loop of `readInPeople` run on the reader from `(pos, atLines)` with the
    table `emails` built so far.
  */
  function PeopleLoop(lines: seq<string>, pos: nat, atLines: bool, emails: map<string, string>): (o: Read<map<string, string>>)
    requires pos <= |lines|
    ensures o.pos <= |lines|
    decreases |lines| - pos, 0
  {
    var s := Scan(lines, pos, atLines);
    if !s.ok then Read(Ok(emails), s.pos, s.atLines)
    else PeopleLine(lines, s.pos, s.atLines, emails, s.line)
  }

  /** The loop of `readInPeople` holding the line `line` just returned by `Next`. */
  function PeopleLine(lines: seq<string>, pos: nat, atLines: bool, emails: map<string, string>, line: string): (o: Read<map<string, string>>)
    requires pos <= |lines|
    ensures o.pos <= |lines|
    decreases |lines| - pos, 1
  {
    match SplitEntry(line)
    case None => Read(Err("Couldn't find email address in" + line), pos, atLines)
    case Some(e) => PeopleLoop(lines, pos, atLines, emails[e.0 := e.1])
  }

  /**
    The loop of `readInPeople` computes `ParseFrom` over the lines of the
    section; when it succeeds it leaves the reader where the section ends.
  */
  lemma {:induction false} PeopleLoopParses(lines: seq<string>, pos: nat, atLines: bool, m: map<string, string>)
    requires pos <= |lines|
    ensures var o, sec := PeopleLoop(lines, pos, atLines, m), SectionOf(lines, pos, atLines);
      && o.result == ParseFrom(m, sec.entries)
      && (o.result.Ok? ==> o.pos == sec.pos && o.atLines == sec.atLines)
    decreases |lines| - pos
  {
    var s := Scan(lines, pos, atLines);
    SectionUnfold(lines, pos, atLines);
    if s.ok {
      var rest := SectionOf(lines, s.pos, s.atLines);
      ParseFromStep(m, s.line, rest.entries);
      if ':' in s.line {
        var e := SplitEntry(s.line).value;
        PeopleLoopParses(lines, s.pos, s.atLines, m[e.0 := e.1]);
      }
    }
  }

  /**
    `readInPeople`: reads the people section. On success the result holds a
    fresh person per name of the loop's table, filed under that name and with
    that name's e-mail; otherwise the error is that of the first line without
    a colon or, failing that, the scanner's read error.
  */
  method ReadInPeople(input: Input) returns (r: Result<map<string, Person>>)
    requires input.Valid()
    modifies input
    ensures input.Valid()
    ensures var want := PeopleLoop(input.lines, old(input.pos), old(input.atLines), map[]);
      && input.pos == want.pos && input.atLines == want.atLines
      && (r.Ok? <==> want.result.Ok? && input.Err().None?)
      && (r.Ok? ==> Emails(r.value) == want.result.value && Named(r.value))
      && (r.Err? ==> r.error == if want.result.Err? then want.result.error else input.Err().value)
    ensures r.Ok? ==> forall n :: n in r.value ==> fresh(r.value[n])
  {
    ghost var lines := input.lines;
    ghost var want := PeopleLoop(lines, input.pos, input.atLines, map[]);
    ghost var emails: map<string, string> := map[];
    var ret: map<string, Person> := map[];
    var line, ok := input.Next();
    while ok
      invariant input.Valid() && input.lines == lines
      invariant ok ==> want == PeopleLine(lines, input.pos, input.atLines, emails, line)
      invariant !ok ==> want == Read(Ok(emails), input.pos, input.atLines)
      invariant Emails(ret) == emails && Named(ret)
      invariant forall n :: n in ret ==> fresh(ret[n])
      decreases |lines| - input.pos, ok
    {
      var entry := SplitEntry(line);
      if entry.None? {
        return Err("Couldn't find email address in" + line);
      }
      var name, email := entry.value.0, entry.value.1;
      var p := new Person(name, email);
      EmailsStore(ret, name, p);
      ret := ret[name := p];
      emails := emails[name := email];
      line, ok := input.Next();
    }
    if input.Err().Some? {
      return Err(input.Err().value);
    }
    return Ok(ret);
  }

  // ---------------------------------------------------------------------------
  // readInBadSets
  // ---------------------------------------------------------------------------

  /** `people[name]` in Go: the person filed under `name`, or nil. */
  function Resolve(people: map<string, Person>, name: string): (p: Person?)
    ensures p != null <==> name in people
  {
    if name in people then people[name] else null
  }

  /** The people the names `parts` resolve to, each passed through `title` first. */
  function ResolveAll(people: map<string, Person>, title: string -> string, parts: seq<string>): set<Person?>
    decreases |parts|
  {
    if parts == [] then {}
    else ResolveAll(people, title, parts[..|parts| - 1]) + {Resolve(people, title(parts[|parts| - 1]))}
  }

  /** A resolved set holds exactly the resolution of each name. */
  lemma {:induction false} ResolveAllMembers(people: map<string, Person>, title: string -> string, parts: seq<string>)
    ensures forall p :: p in ResolveAll(people, title, parts) <==>
      exists k :: 0 <= k < |parts| && Resolve(people, title(parts[k])) == p
    decreases |parts|
  {
    if parts != [] {
      var init := parts[..|parts| - 1];
      ResolveAllMembers(people, title, init);
      assert forall k :: 0 <= k < |init| ==> init[k] == parts[k];
    }
  }

  /**
    The exclusion set one line of the section describes: every comma-separated
    name, passed through `title` (the program's `strings.Title`) and resolved.
  */
  function Excluded(people: map<string, Person>, title: string -> string, line: string): set<Person?> {
    ResolveAll(people, title, Split(line, ','))
  }

  /**
    The exclusion set of one line holds a person exactly when one of its names
    turns into that person's name, and holds nil exactly when one of its names
    turns into no one's.
  */
  lemma ExcludedMembers(people: map<string, Person>, title: string -> string, line: string)
    requires Named(people)
    ensures forall n :: n in people ==>
      (people[n] in Excluded(people, title, line) <==> exists part :: part in Split(line, ',') && title(part) == n)
    ensures null in Excluded(people, title, line) <==> exists part :: part in Split(line, ',') && title(part) !in people
  {
    var parts := Split(line, ',');
    ResolveAllMembers(people, title, parts);
    forall n | n in people && people[n] in Excluded(people, title, line)
      ensures exists part :: part in parts && title(part) == n
    {
      var k :| 0 <= k < |parts| && Resolve(people, title(parts[k])) == people[n];
      assert people[title(parts[k])].name == title(parts[k]);
    }
    forall n | n in people && (exists part :: part in parts && title(part) == n)
      ensures people[n] in Excluded(people, title, line)
    {
      var part :| part in parts && title(part) == n;
      var k :| 0 <= k < |parts| && parts[k] == part;
      assert Resolve(people, title(parts[k])) == people[n];
    }
    if null in Excluded(people, title, line) {
      var k :| 0 <= k < |parts| && Resolve(people, title(parts[k])) == null;
      assert parts[k] in parts;
    }
    if exists part :: part in parts && title(part) !in people {
      var part :| part in parts && title(part) !in people;
      var k :| 0 <= k < |parts| && parts[k] == part;
      assert Resolve(people, title(parts[k])) == null;
    }
  }

  /**
    One line of `readInBadSets`: a new `BadSet` to which the inner loop adds
    the person of each name of `parts`, in turn.
  */
  method LineBadSet(people: map<string, Person>, title: string -> string, parts: seq<string>) returns (bad: BadSet)
    ensures fresh(bad)
    ensures bad.pbad == ResolveAll(people, title, parts)
  {
    bad := new BadSet();
    var j := 0;
    while j < |parts|
      invariant 0 <= j <= |parts|
      invariant bad.pbad == ResolveAll(people, title, parts[..j])
    {
      assert parts[..j + 1][..j] == parts[..j];
      bad.AddPerson(Resolve(people, title(parts[j])));
      j := j + 1;
    }
    assert parts[..j] == parts;
  }

  /** `Excluded` as a function of the line. */
  function ExcludedBy(people: map<string, Person>, title: string -> string): string -> set<Person?> {
    line => Excluded(people, title, line)
  }

  /** One turn of the loop of `readInBadSets`: the set for `line`, then the next line of the section. */
  method NextBadSet(input: Input, people: map<string, Person>, title: string -> string, line: string)
    returns (bad: BadSet, next: string, ok: bool)
    requires input.Valid()
    modifies input
    ensures input.Valid()
    ensures fresh(bad) && bad.pbad == Excluded(people, title, line)
    ensures Step(next, ok, input.pos, input.atLines) == Scan(input.lines, old(input.pos), old(input.atLines))
  {
    bad := LineBadSet(people, title, Split(line, ','));
    next, ok := input.Next();
  }

  /**
    `readInBadSets`: reads the exclusion section. Each line becomes a new
    `BadSet`, appended in order, holding the line's resolved names; a name
    that resolves to no one puts nil in the set. The only error is the
    scanner's read error.
  */
  method ReadInBadSets(input: Input, people: map<string, Person>, title: string -> string) returns (r: Result<seq<BadSet>>)
    requires input.Valid()
    modifies input
    ensures input.Valid()
    ensures var want := Collect(input.lines, old(input.pos), old(input.atLines), ExcludedBy(people, title), []);
      && input.pos == want.pos && input.atLines == want.atLines
      && (r.Ok? <==> input.Err().None?)
      && (r.Err? ==> r.error == input.Err().value)
      && (r.Ok? ==> (|r.value| == |want.values|
            && forall i :: 0 <= i < |r.value| ==> r.value[i].pbad == want.values[i]))
    ensures r.Ok? ==> forall i :: 0 <= i < |r.value| ==> fresh(r.value[i])
  {
    ghost var lines := input.lines;
    ghost var f := ExcludedBy(people, title);
    ghost var want := Collect(lines, input.pos, input.atLines, f, []);
    ghost var groups: seq<set<Person?>> := [];
    var ret: seq<BadSet> := [];
    var line, ok := input.Next();
    while ok
      invariant input.Valid() && input.lines == lines
      invariant ok ==> want == Collect(lines, input.pos, input.atLines, f, groups + [f(line)])
      invariant !ok ==> want == Mapped(groups, input.pos, input.atLines)
      invariant |ret| == |groups|
      invariant forall i :: 0 <= i < |ret| ==> fresh(ret[i]) && ret[i].pbad == groups[i]
      decreases |lines| - input.pos, ok
    {
      var bad;
      groups := groups + [f(line)];
      bad, line, ok := NextBadSet(input, people, title, line);
      ret := ret + [bad];
    }
    if input.Err().Some? {
      return Err(input.Err().value);
    }
    return Ok(ret);
  }

  // ---------------------------------------------------------------------------
  // readLine and readInEmailer
  // ---------------------------------------------------------------------------

  /**
    What `readLine` makes of one step of the reader: the line itself when
    `exp` is -1, its comma-separated fields when there are `exp` of them;
    otherwise the reader's error `err` if the step failed with one, else
    `errString`.
  */
  function LineFields(s: Step, exp: int, errString: string, err: Option<string>): Result<seq<string>> {
    if !s.ok then (if err.Some? then Err(err.value) else Err(errString))
    else if exp == -1 then Ok([s.line])
    else if |Split(s.line, ',')| == exp then Ok(Split(s.line, ','))
    else Err(errString)
  }

  /** `readLine` from reader state `(pos, atLines)`: one `Next`, then `Err` when it failed. */
  function ReadLineFrom(lines: seq<string>, readError: Option<string>, pos: nat, atLines: bool,
                        exp: int, errString: string): (o: Read<seq<string>>)
    requires pos <= |lines|
    ensures o.pos <= |lines|
  {
    var s := Scan(lines, pos, atLines);
    Read(LineFields(s, exp, errString, if s.pos == |lines| then readError else None), s.pos, s.atLines)
  }

  /**
    `readLine` succeeds exactly when the section has a next line and, unless
    `exp` is -1, that line has `exp` fields. The fields are the line's pieces,
    which join back into the line, and the reader then stands before the rest
    of the section. A failure at the end of the input reports the read error
    if there is one.
  */
  lemma ReadLineMeaning(lines: seq<string>, readError: Option<string>, pos: nat, atLines: bool, exp: int, errString: string)
    requires pos <= |lines|
    ensures var o, sec := ReadLineFrom(lines, readError, pos, atLines, exp, errString), SectionOf(lines, pos, atLines);
      && (o.result.Ok? <==> sec.entries != [] && (exp == -1 || |Split(sec.entries[0], ',')| == exp))
      && (o.result.Ok? ==>
            && o.result.value == (if exp == -1 then [sec.entries[0]] else Split(sec.entries[0], ','))
            && Join(o.result.value, ",") == sec.entries[0]
            && SectionOf(lines, o.pos, o.atLines) == Section(sec.entries[1..], sec.pos, sec.atLines))
      && (o.result.Err? ==> o.result.error == errString || (o.pos == |lines| && readError == Some(o.result.error)))
  {
    var s := Scan(lines, pos, atLines);
    SectionUnfold(lines, pos, atLines);
    if s.ok {
      JoinSplit(s.line, ',');
      assert ([s.line] + SectionOf(lines, s.pos, s.atLines).entries)[1..] == SectionOf(lines, s.pos, s.atLines).entries;
    }
  }

  /** `readLine`: one `Next`, split and counted as `ReadLineFrom` says. */
  method ReadLine(input: Input, exp: int, errString: string) returns (r: Result<seq<string>>)
    requires input.Valid()
    modifies input
    ensures input.Valid()
    ensures Read(r, input.pos, input.atLines)
      == ReadLineFrom(input.lines, input.readError, old(input.pos), old(input.atLines), exp, errString)
    ensures r.Ok? ==> |r.value| == if exp == -1 then 1 else exp
  {
    var l, b := input.Next();
    if !b {
      if input.Err().Some? {
        return Err(input.Err().value);
      }
    } else if exp == -1 {
      return Ok([l]);
    } else {
      var sp := Split(l, ',');
      if |sp| == exp {
        return Ok(sp);
      }
    }
    return Err(errString);
  }

  const AuthError := "Need four fields in the first line of the input file: identity,username,password,host"
  const ServerError := "Need two fields in the second line of the input file: server,from"
  const SubjectError := "Need a line designating the subject in the third line of the file"
  const MessageError := "Need a line designating the generic message in the fourth line of the file"
  const ExtraLine := "Extra line at the end of the first section: "

  /**
    `readInEmailer` from reader state `(pos, atLines)`: four `readLine`s (four
    auth fields, server and sender, the subject, the message), each failure
    ending it, then one more `Next` that must report the end of the section.
  */
  function EmailerFrom(lines: seq<string>, readError: Option<string>, pos: nat, atLines: bool): Read<Emailer>
    requires pos <= |lines|
  {
    var a := ReadLineFrom(lines, readError, pos, atLines, 4, AuthError);
    if a.result.Err? then Read(Err(a.result.error), a.pos, a.atLines)
    else ServerFrom(lines, readError, a.pos, a.atLines, a.result.value)
  }

  /** The rest of `readInEmailer` once the four auth fields are read. */
  function ServerFrom(lines: seq<string>, readError: Option<string>, pos: nat, atLines: bool, auths: seq<string>): Read<Emailer>
    requires pos <= |lines| && |auths| == 4
  {
    var b := ReadLineFrom(lines, readError, pos, atLines, 2, ServerError);
    if b.result.Err? then Read(Err(b.result.error), b.pos, b.atLines)
    else SubjectFrom(lines, readError, b.pos, b.atLines, auths, b.result.value)
  }

  /** The rest of `readInEmailer` once server and sender are read. */
  function SubjectFrom(lines: seq<string>, readError: Option<string>, pos: nat, atLines: bool,
                       auths: seq<string>, sp: seq<string>): Read<Emailer>
    requires pos <= |lines| && |auths| == 4 && |sp| == 2
  {
    var c := ReadLineFrom(lines, readError, pos, atLines, -1, SubjectError);
    if c.result.Err? then Read(Err(c.result.error), c.pos, c.atLines)
    else MessageFrom(lines, readError, c.pos, c.atLines, auths, sp, c.result.value[0])
  }

  /** The rest of `readInEmailer` once the subject is read. */
  function MessageFrom(lines: seq<string>, readError: Option<string>, pos: nat, atLines: bool,
                       auths: seq<string>, sp: seq<string>, subject: string): Read<Emailer>
    requires pos <= |lines| && |auths| == 4 && |sp| == 2
  {
    var d := ReadLineFrom(lines, readError, pos, atLines, -1, MessageError);
    if d.result.Err? then Read(Err(d.result.error), d.pos, d.atLines)
    else EndFrom(lines, d.pos, d.atLines, auths, sp, subject, d.result.value[0])
  }

  /** The emailer `readInEmailer` builds from its fields. */
  function MakeEmailer(auths: seq<string>, sp: seq<string>, subject: string, msg: string): Emailer
    requires |auths| == 4 && |sp| == 2
  {
    Emailer(PlainAuth(auths[0], auths[1], auths[2], auths[3]), sp[0], sp[1], RawMessage(subject, msg))
  }

  /** The end of `readInEmailer`: the section must be over. */
  function EndFrom(lines: seq<string>, pos: nat, atLines: bool,
                   auths: seq<string>, sp: seq<string>, subject: string, msg: string): Read<Emailer>
    requires pos <= |lines| && |auths| == 4 && |sp| == 2
  {
    var e := Scan(lines, pos, atLines);
    if e.ok then Read(Err(ExtraLine + e.line), e.pos, e.atLines)
    else Read(Ok(MakeEmailer(auths, sp, subject, msg)), e.pos, e.atLines)
  }

  /** The end check succeeds exactly on an exhausted section, and otherwise reports its next line. */
  lemma EndSection(lines: seq<string>, pos: nat, atLines: bool, auths: seq<string>, sp: seq<string>, subject: string, msg: string)
    requires pos <= |lines| && |auths| == 4 && |sp| == 2
    ensures var o, sec := EndFrom(lines, pos, atLines, auths, sp, subject, msg), SectionOf(lines, pos, atLines);
      && (o.result.Ok? <==> sec.entries == [])
      && (o.result.Ok? ==> o.result.value == MakeEmailer(auths, sp, subject, msg) && o.pos == sec.pos && o.atLines == sec.atLines)
      && (sec.entries != [] ==> o.result == Err(ExtraLine + sec.entries[0]))
  {
    SectionUnfold(lines, pos, atLines);
  }

  /** With the subject read, the rest succeeds exactly on a section holding just the message. */
  lemma MessageSection(lines: seq<string>, readError: Option<string>, pos: nat, atLines: bool,
                       auths: seq<string>, sp: seq<string>, subject: string)
    requires pos <= |lines| && |auths| == 4 && |sp| == 2
    ensures var o, sec := MessageFrom(lines, readError, pos, atLines, auths, sp, subject), SectionOf(lines, pos, atLines);
      && (o.result.Ok? <==> |sec.entries| == 1)
      && (o.result.Ok? ==> o.result.value == MakeEmailer(auths, sp, subject, sec.entries[0]) && o.pos == sec.pos && o.atLines == sec.atLines)
      && (|sec.entries| > 1 ==> o.result == Err(ExtraLine + sec.entries[1]))
  {
    ReadLineMeaning(lines, readError, pos, atLines, -1, MessageError);
    var d := ReadLineFrom(lines, readError, pos, atLines, -1, MessageError);
    if d.result.Ok? {
      EndSection(lines, d.pos, d.atLines, auths, sp, subject, d.result.value[0]);
    }
  }

  /** With server and sender read, the rest succeeds exactly on a section of subject and message. */
  lemma SubjectSection(lines: seq<string>, readError: Option<string>, pos: nat, atLines: bool,
                       auths: seq<string>, sp: seq<string>)
    requires pos <= |lines| && |auths| == 4 && |sp| == 2
    ensures var o, sec := SubjectFrom(lines, readError, pos, atLines, auths, sp), SectionOf(lines, pos, atLines);
      && (o.result.Ok? <==> |sec.entries| == 2)
      && (o.result.Ok? ==> o.result.value == MakeEmailer(auths, sp, sec.entries[0], sec.entries[1]) && o.pos == sec.pos && o.atLines == sec.atLines)
      && (|sec.entries| > 2 ==> o.result == Err(ExtraLine + sec.entries[2]))
  {
    ReadLineMeaning(lines, readError, pos, atLines, -1, SubjectError);
    var c := ReadLineFrom(lines, readError, pos, atLines, -1, SubjectError);
    if c.result.Ok? {
      MessageSection(lines, readError, c.pos, c.atLines, auths, sp, c.result.value[0]);
    }
  }

  /** With the auth fields read, the rest succeeds exactly on three more lines, the first with two fields. */
  lemma ServerSection(lines: seq<string>, readError: Option<string>, pos: nat, atLines: bool, auths: seq<string>)
    requires pos <= |lines| && |auths| == 4
    ensures var o, sec := ServerFrom(lines, readError, pos, atLines, auths), SectionOf(lines, pos, atLines);
      var good := |sec.entries| >= 3 && |Split(sec.entries[0], ',')| == 2;
      && (o.result.Ok? <==> good && |sec.entries| == 3)
      && (o.result.Ok? ==>
            o.result.value == MakeEmailer(auths, Split(sec.entries[0], ','), sec.entries[1], sec.entries[2])
            && o.pos == sec.pos && o.atLines == sec.atLines)
      && (good && |sec.entries| > 3 ==> o.result == Err(ExtraLine + sec.entries[3]))
  {
    ReadLineMeaning(lines, readError, pos, atLines, 2, ServerError);
    var b := ReadLineFrom(lines, readError, pos, atLines, 2, ServerError);
    if b.result.Ok? {
      SubjectSection(lines, readError, b.pos, b.atLines, auths, b.result.value);
    }
  }

  /**
    `readInEmailer` succeeds exactly when the first section has four lines,
    the first with four comma-separated fields and the second with two; the
    read error never matters then. The emailer holds those fields and the raw
    message of the third and fourth lines, and the reader is left after the
    section. Four good lines followed by more report the fifth.
  */
  lemma EmailerSection(lines: seq<string>, readError: Option<string>, pos: nat, atLines: bool)
    requires pos <= |lines|
    ensures var o, sec := EmailerFrom(lines, readError, pos, atLines), SectionOf(lines, pos, atLines);
      var good := |sec.entries| >= 4 && |Split(sec.entries[0], ',')| == 4 && |Split(sec.entries[1], ',')| == 2;
      && (o.result.Ok? <==> good && |sec.entries| == 4)
      && (o.result.Ok? ==>
            o.result.value == MakeEmailer(Split(sec.entries[0], ','), Split(sec.entries[1], ','), sec.entries[2], sec.entries[3])
            && o.pos == sec.pos && o.atLines == sec.atLines)
      && (good && |sec.entries| > 4 ==> o.result == Err(ExtraLine + sec.entries[4]))
  {
    ReadLineMeaning(lines, readError, pos, atLines, 4, AuthError);
    var a := ReadLineFrom(lines, readError, pos, atLines, 4, AuthError);
    if a.result.Ok? {
      ServerSection(lines, readError, a.pos, a.atLines, a.result.value);
    }
  }

  /** `readInEmailer`: reads the first section into an emailer, as `EmailerFrom` says. */
  method ReadInEmailer(input: Input) returns (r: Result<Emailer>)
    requires input.Valid()
    modifies input
    ensures input.Valid()
    ensures Read(r, input.pos, input.atLines) == EmailerFrom(input.lines, input.readError, old(input.pos), old(input.atLines))
  {
    var auths := ReadLine(input, 4, AuthError);
    if auths.Err? {
      return Err(auths.error);
    }
    var sp := ReadLine(input, 2, ServerError);
    if sp.Err? {
      return Err(sp.error);
    }
    var subject := ReadLine(input, -1, SubjectError);
    if subject.Err? {
      return Err(subject.error);
    }
    var msg := ReadLine(input, -1, MessageError);
    if msg.Err? {
      return Err(msg.error);
    }
    var line, b := input.Next();
    if b {
      return Err(ExtraLine + line);
    }
    return Ok(MakeEmailer(auths.value, sp.value, subject.value[0], msg.value[0]));
  }
}
