# Secret Santa matcher in Dafny

This project models the matching engine of `secretsanta.go` and proves its
properties, together with the line-oriented readers that feed the engine.
The engine has three stages:

- exclusion groups (`BadSet`) are compiled into a forbidden set per person (`compileBadSet`);
- each person gets a candidate list (`makeDomain`), which is sorted by name
  and shuffled with a seeded generator (`shuffle`, `buildDomains`);
- a depth-first backtracking search (`solve`) picks a distinct receiver for
  every person, keeping the receivers already taken in a shared `assigned` set.

The readers are:

- the section reader `Input.Next` over a line scanner;
- `readInPeople` (`name:email` lines), `readInBadSets` (comma-separated exclusion groups);
- `readLine` and `readInEmailer` (the four lines that configure the e-mail);
- the `%1`/`%2`/`%3` substitution that `sendAssignment` applies to the message template.

The code's form is kept wherever the code changes state:

- `Person`, `BadSet`, the reader `Input`, the random source and the `assigned` set are classes updated in place;
- `shuffle` swaps in an array;
- the loops are `while`/`for` loops proved against recursive functions that mirror them.

Lemmas then give those functions their meaning. The main results are:

- **Solver.SolveMatches**: on the output of `buildDomains`, a result of `solve` is a
  bijection of the party onto itself with no fixed point and no pair inside an exclusion group.
- **Solver.SearchIff**: `solve` returns `nil` only when the candidate lists admit no injective choice at all.
- **Solver.SolveIffMatching**: on the output of `buildDomains`, `solve` succeeds exactly when the party has a matching.
- **Solver.SameDeal**: two runs of `buildDomains` on the same people, groups and draws list the people in the same order and deal them the same candidate lists. `Solver.Match` states that its matching is the search `Outcome` over that order and those lists, so the matching is fixed too.
- **Solver.Solve**: on failure `solve` restores `assigned`; on success `assigned` gains exactly the picks.

Files (one module each):

| file | module | contents |
|---|---|---|
| wrappers.dfy | Wrappers | `Option`, `Result` |
| gostrings.dfy | GoStrings | `strings.Trim`, `Index`, `Split`, `Replace`, `HasPrefix("//")`, Go's string `<` |
| people.dfy | People | `Person`, `BadSet`, the `People` sort order, `sort.Sort` |
| input.dfy | InputReader | `Input.Next`, `Input.Err`, sections |
| mail.dfy | Mail | the raw message and the macro substitution |
| readers.dfy | Readers | `readInPeople`, `readInBadSets`, `readLine`, `readInEmailer` |
| domains.dfy | Domains | `compileBadSet`, `makeDomain`, `math/rand`, `shuffle`, `buildDomains` |
| solver.dfy | Solver | `solve` and the matching step of `main` |

Three behaviours of the code are kept as written:

- `compileBadSet` unions whole groups (secretsanta.go:164-171), so a person who
  is in some group is in their own forbidden set (`Domains.SelfForbidden`).
  `makeDomain` drops everything in that set (secretsanta.go:180-188), the
  person included.
- `readInBadSets` looks each name up in the people map (secretsanta.go:153). An
  unknown name yields nil, and `AddPerson` stores it. The model's `BadSet`
  holds `Person?` and keeps that nil (`Readers.ExcludedMembers`).
- `readInPeople` stores each line under its name (secretsanta.go:101), so a
  later line with the same name replaces an earlier one (`Readers.ParsePeopleLastWins`).

## Model

| member | source | states |
|---|---|---|
| GoStrings.TrimRight | secretsanta.go:59 | the right-trimmed line is a prefix of the line, and it ends in a non-space |
| GoStrings.Trim | secretsanta.go:59 | `strings.Trim(s, " \t")` is no longer than `s`; a non-empty result starts and ends with a non-space |
| GoStrings.TrimSlice | secretsanta.go:59 | the trimmed line is the contiguous part of the line that starts after its leading spaces and tabs |
| GoStrings.TrimCutsSpaces | secretsanta.go:59 | everything `Trim` cuts off on either side is spaces and tabs |
| GoStrings.TrimRightSpaces | secretsanta.go:59 | everything cut off on the right is spaces and tabs |
| GoStrings.TrimEmpty | secretsanta.go:59-63 | a line trims to the empty string exactly when it is all spaces and tabs |
| GoStrings.TrimFixed | secretsanta.go:59 | a line with no space or tab at either end is unchanged by trimming |
| GoStrings.TrimIdempotent | secretsanta.go:59 | trimming twice is trimming once |
| GoStrings.IndexOf | secretsanta.go:94-95 | `strings.Index` for one character: -1 exactly when it is absent, otherwise the index of its first occurrence |
| GoStrings.Split | secretsanta.go:151 | `strings.Split` yields at least one piece |
| GoStrings.SplitPieces | secretsanta.go:151 | no piece of a split holds the separator |
| GoStrings.JoinSplit | secretsanta.go:391 | the pieces of a split join back into the line |
| GoStrings.SplitJoin | secretsanta.go:391 | separator-free pieces joined by the separator split back into the same pieces |
| GoStrings.ReplaceAbsent | secretsanta.go:364 | replacing a pattern that does not occur leaves the string unchanged |
| GoStrings.ReplaceStep | secretsanta.go:364 | `strings.Replace(.., -1)` replaces the first occurrence and goes on after it |
| GoStrings.StrLessIrreflexive | secretsanta.go:198 | Go's string `<` (bytewise lexicographic) is irreflexive |
| GoStrings.StrLessTransitive | secretsanta.go:198 | it is transitive |
| GoStrings.StrLessTotal | secretsanta.go:198 | of two different strings one is smaller |
| GoStrings.StrLessAsymmetric | secretsanta.go:198 | it is asymmetric |
| People.Person.constructor | secretsanta.go:101-105 | a new person holds its name and e-mail and an empty `good` list |
| People.LeTransitive | secretsanta.go:198 | ordering people by name is transitive |
| People.LeTotal | secretsanta.go:198 | any two people are ordered by name one way or the other |
| People.LeAntisymmetric | secretsanta.go:198 | people ordered both ways share a name |
| People.SortedUnique | secretsanta.go:201-202 | two name-sorted lists of the same people, no two sharing a name, are equal, so the sort's result does not depend on the input order |
| People.Swap | secretsanta.go:197 | `People.Swap` exchanges two entries and keeps the multiset |
| People.SortByName | secretsanta.go:202 | `sort.Sort(People(l))` leaves the array sorted by name and a permutation of its input |
| People.BadSet.constructor | secretsanta.go:135-139 | `NewBadSet` is empty |
| People.BadSet.AddPerson | secretsanta.go:120-122 | adds exactly the given person, nil included |
| People.BadSet.IsIn | secretsanta.go:124-127 | true exactly for members |
| People.BadSet.AddAll | secretsanta.go:129-133 | the set becomes the union of both sets |
| InputReader.Input.constructor | secretsanta.go:268 | a reader starts at the first line, outside any section |
| InputReader.Input.Next | secretsanta.go:57-74 | the line, flag, cursor and `atLines` after `Next` are those `Scan` gives for the old cursor and flag |
| InputReader.Input.Err | secretsanta.go:76-78 | a read error is reported only once the scanner has run out of lines |
| InputReader.ScanReturnsContent | secretsanta.go:58-66 | a successful `Next` returns the trimmed text of the line just read, which is neither empty nor a `//` comment, and sets `atLines` |
| InputReader.ScanSkips | secretsanta.go:58-72 | every line `Next` passes over is a comment, or a blank line read outside a section |
| InputReader.ScanStops | secretsanta.go:67-73 | a failing `Next` returns `""`; it fails either at the end of the input (every remaining line skippable, flag untouched) or at the first blank line inside a section (flag reset) |
| InputReader.SectionEntries | secretsanta.go:93-106 | every line a section yields is trimmed, non-empty and not a comment |
| InputReader.SectionEnd | secretsanta.go:67-73 | after a section the reader is at the end of the input or outside any section |
| InputReader.SectionUnfold | secretsanta.go:93 | one `Next` peels the first line off a section |
| InputReader.CollectSection | secretsanta.go:147-155 | a loop over a section appends the value of each of its lines, in order, and stops where the section ends |
| InputReader.EachAt | secretsanta.go:147-155 | the `i`-th value is made from the `i`-th line |
| Mail.RawMessageRoundTrip | secretsanta.go:415 | the raw message splits back into the subject (no carriage return) and the body |
| Mail.MessageWithoutMacros | secretsanta.go:362-366 | a template without `%` is sent unchanged |
| Mail.ParseRender | secretsanta.go:29-32 | every template is the text of its parse into `%`-free text, macros `%d` (`d` not `%`) and lone `%`s, and that parse is well formed |
| Mail.ReplaceRender | secretsanta.go:362-366 | one `strings.Replace` of `%d` over a well-formed template replaces exactly its `%d` macros, leftmost first, and nothing else |
| Mail.MessageFillsSlots | secretsanta.go:362-366 | for any well-formed template, with any number of macros in any order, stray `%`s included, the message is the template with every `%1`, `%2`, `%3` replaced by the sender's name, the sender's e-mail and the receiver's name, and all other text kept; the sender's name and e-mail hold no `%` and no lone `%` stands before a `%1` or `%2` |
| Mail.MessageFillsTemplate | secretsanta.go:362-366 | the same for the template string itself: any template without `%%1` or `%%2` is sent as its parse with each macro filled |
| Mail.MacroCascade | secretsanta.go:362-366 | the replacements also fill macros inside the values: with the template `%1` and a sender named `%3`, the message is the receiver's name |
| Readers.SplitEntry | secretsanta.go:94-99 | a line yields no entry exactly when it has no colon |
| Readers.ParseFromFails | secretsanta.go:93-97 | the loop succeeds exactly when every line has a colon; otherwise the error names the first line without one |
| Readers.ParsePeopleFails | secretsanta.go:93-97 | the same for a whole people section |
| Readers.Pairs | secretsanta.go:94-99 | each line of a section splits into its name and e-mail |
| Readers.TableKeys | secretsanta.go:101 | the table holds exactly the earlier names and the names of the lines |
| Readers.TableLastWins | secretsanta.go:101 | a name gets the e-mail of its last line |
| Readers.TableUntouched | secretsanta.go:101 | names that no line mentions keep their entry |
| Readers.ParseFromTable | secretsanta.go:93-106 | with every line well-formed, the loop builds the table of the lines' pairs |
| Readers.ParsePeopleTable | secretsanta.go:93-106 | a successful section is the table of its pairs |
| Readers.ParsePeopleLastWins | secretsanta.go:101 | a later line with the same name overwrites an earlier one |
| Readers.ParseFromStep | secretsanta.go:94-101 | one line either ends the loop with the error or is stored |
| Readers.PeopleLoopParses | secretsanta.go:93-110 | the loop over the reader gives the parse of the section, and the reader ends where the section does |
| Readers.ReadInPeople | secretsanta.go:91-112 | on success, a fresh person per name of the table, filed under its name with its e-mail; otherwise the first line without a colon or the read error |
| Readers.Resolve | secretsanta.go:153 | `people[p]` is nil exactly when the name is unknown |
| Readers.ResolveAllMembers | secretsanta.go:151-154 | a line's set holds exactly the resolutions of its names |
| Readers.ExcludedMembers | secretsanta.go:151-154 | a person is in a line's set exactly when one of its title-cased names is theirs; nil is in it exactly when some name is unknown |
| Readers.LineBadSet | secretsanta.go:148-154 | a fresh `BadSet` holding the resolution of each name of the line |
| Readers.NextBadSet | secretsanta.go:147-154 | one turn of the loop: the line's set, then the next `Next` |
| Readers.ReadInBadSets | secretsanta.go:145-160 | one fresh set per line of the section, in order, each holding that line's resolved names; the only error is the read error |
| Readers.ReadLineMeaning | secretsanta.go:384-395 | `readLine` succeeds exactly on a next line with `exp` comma-separated fields (any line when `exp` is -1); the fields join back into the line; a failure is `errString` or the read error |
| Readers.ReadLine | secretsanta.go:384-395 | the method is one `Next` followed by the split and count that `ReadLineMeaning` describes, and returns `exp` fields (one for -1) |
| Readers.EndSection | secretsanta.go:417-419 | the closing `Next` succeeds exactly on an exhausted section, and otherwise names the extra line |
| Readers.MessageSection | secretsanta.go:410-426 | the tail of `readInEmailer` after the subject |
| Readers.SubjectSection | secretsanta.go:406-426 | the tail of `readInEmailer` after server and sender |
| Readers.ServerSection | secretsanta.go:402-426 | the tail of `readInEmailer` after the four auth fields |
| Readers.EmailerSection | secretsanta.go:397-427 | `readInEmailer` succeeds exactly on a four-line section whose first line has four fields and second two; the emailer holds those fields and the raw message of lines three and four; a fifth line is reported |
| Readers.ReadInEmailer | secretsanta.go:397-427 | the method follows the four `readLine`s and the closing `Next` whose outcome `EmailerSection` describes |
| Domains.Sets | secretsanta.go:164-165 | the groups as sets, one per `BadSet`, in order |
| Domains.MembersMeaning | secretsanta.go:164-170 | a person has an entry exactly when some group contains them |
| Domains.ForbiddenMeaning | secretsanta.go:164-171 | `q` is forbidden for `p` exactly when some group contains both |
| Domains.SelfForbidden | secretsanta.go:165-171 | a person in any group is in their own forbidden set |
| Domains.ForbiddenMutual | secretsanta.go:164-171 | forbiddance is symmetric |
| Domains.ForbiddenOutside | secretsanta.go:164-171 | a person in no group has nothing forbidden |
| Domains.CompilesHolds | secretsanta.go:162-175 | the loop's invariant at the end is the result's specification |
| Domains.HoldsStep | secretsanta.go:166-171 | one member's update keeps the invariant |
| Domains.HoldsNext | secretsanta.go:164-172 | finishing a group moves the invariant to the next group |
| Domains.AddGroup | secretsanta.go:166-171 | the member's entry is created if missing and then grows by the group |
| Domains.AddMembers | secretsanta.go:165-172 | every member of a group gets the group added |
| Domains.CompileGroups | secretsanta.go:164-173 | the outer loop leaves every group-member's entry equal to the union of the groups naming them, entries distinct objects, none of them one of the groups |
| Domains.CompileBadSet | secretsanta.go:162-175 | keys are exactly the people in some group; each entry is the union of the groups containing that person; entries are distinct objects and none is one of the groups |
| Domains.RangeOrder | secretsanta.go:179 | `range` over a map visits every key once, in some order |
| Domains.KeepMembers | secretsanta.go:179-190 | the loop keeps exactly the allowed people of the map |
| Domains.KeepDistinct | secretsanta.go:179-190 | when no two names share a person, nobody is kept twice |
| Domains.DomainMembers | secretsanta.go:177-192 | the domain holds exactly the people of the map who are allowed: not `cur` when there is no set, not in the set otherwise |
| Domains.MakeDomain | secretsanta.go:177-192 | the method filters the map in some `range` order: it keeps exactly the people of the map that are allowed to `cur`, and each of them once when no two names share a person |
| Domains.ExclForMeaning | secretsanta.go:180-188 | with the compiled set, a person is allowed exactly when they are not `cur` and share no group with `cur` |
| Domains.Rand.constructor | secretsanta.go:257-259 | a new generator has used no draws |
| Domains.Rand.Int31n | secretsanta.go:204 | `Int31n(n)` lies in `[0, n)` and uses the next draw |
| Domains.KnuthPermutes | secretsanta.go:203-206 | the countdown keeps the multiset |
| Domains.ShuffleRound | secretsanta.go:204-205 | one round swaps `l[i]` with `l[j]`, `j` drawn in `[0, i]` |
| Domains.Countdown | secretsanta.go:203-206 | the loop applies the rounds for `i` from the last index down to 1, one draw each |
| Domains.Shuffle | secretsanta.go:200-207 | the result is the countdown applied to the name-sorted input, which is a permutation of the input |
| Domains.ShuffleIgnoresOrder | secretsanta.go:200-207 | with no two people sharing a name, the result depends only on which people are given and on the draws |
| Domains.DealtUnique | secretsanta.go:200-207 | two lists dealt from the same people, no two sharing a name, starting at the same draw, are the same list |
| Domains.ValuesInMembers | secretsanta.go:212-216 | the copy holds exactly the map's people, each once when no two names share a person |
| Domains.Gather | secretsanta.go:211-216 | a fresh array of the map's people |
| Domains.ListPeople | secretsanta.go:211-219 | the listed people sorted by name: exactly the map's people, each once when no two names share a person |
| Domains.ExclOf | secretsanta.go:221 | `badMap[v]` excludes exactly what the groups exclude for `v` |
| Domains.DomainGood | secretsanta.go:220-221 | any reordering of the domain is a right candidate list |
| Domains.Permute | secretsanta.go:200-207 | shuffling an array in place keeps its multiset of people; the result is the countdown applied to the name-sorted contents from the draw at entry (`Dealt`); one draw is used per index above 0 |
| Domains.Shuffled | secretsanta.go:221 | the shuffled domain has the domain's multiset, is dealt from the name-sorted domain starting at the draw at entry, and uses one draw fewer than its length (none when empty) |
| Domains.GoodListBag | secretsanta.go:220-221 | when no two names share a person, a right candidate list holds each candidate exactly once |
| Domains.AssignDomain | secretsanta.go:220-221 | `v.good` becomes the people other than `v` who share no group with `v`; the draws advance by one fewer than the list's length; when no two names share a person, each candidate is listed once and the list is dealt from the draw at entry |
| Domains.DealtFromSnoc | secretsanta.go:220-223 | a list dealt from the draw where the earlier people's draws end extends the record of the deals by one person |
| Domains.DealtFromUnique | secretsanta.go:220-223 | when no two people share a name, the lists dealt in turn are fixed by the people, the groups and the draws |
| Domains.AssignedStep | secretsanta.go:220-223 | one round of the loop keeps its state: the lists so far are right, the draws spent are the sum over the people so far, and the lists are dealt in turn |
| Domains.AssignedDone | secretsanta.go:220-223 | at the end of the loop that state covers every listed person |
| Domains.AssignNext | secretsanta.go:220-222 | the method's round keeps the loop's state, whoever else shares the person `vs[i]` |
| Domains.AssignDomains | secretsanta.go:220-223 | every listed person gets a right list; when no two names share a person the draws advance by the sum over the list, and when nobody is listed twice each list is dealt from where the previous person's draws end |
| Domains.BuildDomains | secretsanta.go:209-225 | a fresh name-sorted array of exactly the map's people, each once when no two names share a person; each holds its candidate list; when no two names share a person, the draws and the deal of each list are those `AssignDomains` states, from the draw at entry |
| Solver.Taken.constructor | secretsanta.go:309 | `assigned` starts empty |
| Solver.Search | secretsanta.go:227-254 | a success picks one receiver per remaining person |
| Solver.ChoiceTail | secretsanta.go:241-243 | the rest of a choice is a choice for the rest, with the first pick taken |
| Solver.ChoiceCons | secretsanta.go:241-246 | a free first pick plus a choice for the rest is a choice |
| Solver.SearchSound | secretsanta.go:227-247 | what `solve` finds is a choice: each pick is on its giver's list, none was taken, and no two are the same |
| Solver.TrySound | secretsanta.go:235-247 | the same for the candidate loop |
| Solver.SearchComplete | secretsanta.go:235-253 | `solve` cannot fail while some choice exists |
| Solver.TryComplete | secretsanta.go:235-253 | the loop finds a choice when one exists whose first pick it has yet to try |
| Solver.SearchIff | secretsanta.go:227-254 | `solve` succeeds exactly when some choice exists |
| Solver.PairingMeaning | secretsanta.go:228-246 | the map gives exactly the remaining people a receiver; each receiver is on its giver's list and not taken; no two givers share one |
| Solver.SolveStep | secretsanta.go:241-246 | a success records the candidate on top of the rest's map and leaves it marked |
| Solver.Solve | secretsanta.go:227-254 | the result is the map built from the search function's picks, whose meaning `SearchSound`, `SearchIff` and `PairingMeaning` give; on success `assigned` gains exactly the picks; on failure it is restored |
| Solver.OutcomePairs | secretsanta.go:227-247 | a result gives each listed person a receiver from their list, and no two the same receiver |
| Solver.GoodReceivers | secretsanta.go:220-247 | receivers from `buildDomains` lists are people of the party, never the giver and never in the giver's groups |
| Solver.SolveMatches | secretsanta.go:296-309 | a result on the output of `buildDomains` is a bijection of the party onto itself with no fixed point and no pair inside an exclusion group |
| Solver.MatchingOnto | secretsanta.go:308-316 | in a matching every person of the party receives from exactly one giver |
| Solver.NamedInjective | secretsanta.go:101-105 | in a table `readInPeople` builds, different names hold different people |
| Solver.NamedUnique | secretsanta.go:101-105 | in such a table no two people share a name |
| Solver.SameDeal | secretsanta.go:209-225 | on such a table, two runs of `buildDomains` from the same groups and draws give the same order and the same candidate lists |
| Solver.ListedGive | secretsanta.go:296-311 | a matching gives every listed person a receiver |
| Solver.ReadOff | secretsanta.go:227-247 | the receivers of a matching, in the order of the list, are a choice for `solve` |
| Solver.MatchingChoice | secretsanta.go:296-311 | over `buildDomains` lists that list each person once, every matching yields a choice |
| Solver.SolveIffMatching | secretsanta.go:308-311 | on such lists `solve` from an empty `assigned` succeeds exactly when the party has a matching |
| Solver.Pick | secretsanta.go:308-311 | the search step: the result is the depth-first search `Outcome` over the order and lists `buildDomains` made; a result is a matching; `nil` means no choice exists, and, when no two names share a person, no matching |
| Solver.Match | secretsanta.go:296-311 | `buildDomains` then `solve`: the domains as `BuildDomains` states them; the result is `Outcome` on that order and those lists, so the matching is fixed by the people, groups and draws (secretsanta.go:201); a result is a matching; `nil` means no choice exists, and, when no two names share a person, no matching |

## Left out

- `BatchSend`, `smtp.SendMail`, `smtp.PlainAuth` and the `DRY_RUN` choice of recipient (secretsanta.go:325-352, 368-375) are concurrency and network I/O. The model keeps only the message text and the arguments given to `PlainAuth`.
- Most of `main` is file and terminal I/O: opening the file, parsing the seed with `strconv.ParseInt`, the confirmation prompt, printing and panics. Only its matching step is modelled, by `Solver.Match`.
- `math/rand` is left out. The generator is a stream of draws (`source`), and `Int31n(n)` takes the next draw modulo `n`. Go's own generator and its rejection sampling are not reproduced, only the range of each draw. The `int32` index of `shuffle` is an unbounded integer, so lists of more than 2^31 people are not modelled.
- `strings.Title` is a parameter (`title`) of the bad-set readers.
- `sort.Sort` is modelled by an insertion sort built on `People.Less` and `People.Swap`. Only its contract, sorted by name and a permutation, is used. Among people who share a name, Go's unstable sort may order them differently.
- Go's map iteration order is unspecified, so the model picks an arbitrary order (`Domains.RangeOrder`).
- Determinism of a whole run is stated on values: `Solver.SameDeal` gives the same order and lists, and `Solver.Match` states that the matching is `Outcome` of that order and those lists. The model does not compare two heaps.
- Domains.AssignDomains: states the draws and the deal of each list only when no two names share a person (and, for the deal, when nobody is listed twice). Otherwise the candidate lists repeat people, and the count of draws depends on the repeats. A table `readInPeople` builds always meets the condition (`Solver.NamedInjective`).
- Domains.BuildDomains: the same condition on the draws and the deal, for the same reason.
- Solver.Match: the same condition on the draws, the deal and the "no matching" case, for the same reason.
- Mail.MessageFillsSlots: stated only for a sender name and e-mail without `%`, because a macro inside them is filled by the later replacements (`Mail.MacroCascade`). It also leaves out templates with `%%1` or `%%2`: after the earlier replacement, that lone `%` can join the start of a value into a new macro. The same limits hold for `Mail.MessageFillsTemplate`.
- `fmt.Println` logging and the `String` methods are output only.
- The `bufio.Scanner` is a sequence of lines with a cursor and an optional read error. That error becomes visible only at the end of the lines. Token-size limits and partial reads are not modelled.
- Strings are sequences of characters, and Go's bytewise string `<` is compared character by character. Code-point order agrees with the byte order of UTF-8, so the two orders are the same.
- Go slices are Dafny sequences and arrays. Aliasing between `v.good` and the slice `shuffle` works on is not modelled: the domain is copied into a fresh array, shuffled, and stored.
- The `assigned` map of `solve` is a set held in a class (`Solver.Taken`), because its values (`B{}`) carry nothing. The result map is a value, so its identity as a Go reference is not modelled.
- `readInBadSets` appends each new set to its result before filling it (secretsanta.go:148-149). The model fills the set and then appends it. Both hold the same object, so the final state is the same.
- Readers.ReadInPeople: does not restate that each new person's `good` list is empty. The `Person` constructor states it.
- Readers.ReadInBadSets: states that each set is fresh, but does not state that the sets are pairwise distinct objects.
