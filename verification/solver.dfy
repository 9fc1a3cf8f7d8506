/**
  The backtracking matcher of secretsanta.go: `solve` walks the people sorted
  by name and gives each a receiver from its candidate list, keeping the
  receivers already taken in a shared `assigned` set.
*/
module Solver {
  import opened Wrappers
  import opened People
  import opened Domains
  import opened Readers

  /** The `assigned` map of `solve`, whose values carry nothing: a set of people that is updated in place. */
  class Taken {
    var used: set<Person>

    constructor ()
      ensures used == {}
    {
      used := {};
    }
  }

  // ---------------------------------------------------------------------------
  // The search, as a function
  // ---------------------------------------------------------------------------

  /**
    The receivers `solve(all, cur, ...)` picks for `all[cur..]`, in order, when
    `used` is taken at entry; `None` when it returns `nil`.
  */
  function Search(all: seq<Person>, cur: nat, used: set<Person>): (r: Option<seq<Person>>)
    requires cur <= |all|
    reads all
    ensures r.Some? ==> |r.value| == |all| - cur
    decreases |all| - cur, 1
  {
    if cur == |all| then Some([]) else TryFrom(all, cur, used, 0)
  }

  /** The loop of `solve` over `all[cur].good`, from the `i`-th candidate on. */
  function TryFrom(all: seq<Person>, cur: nat, used: set<Person>, i: nat): (r: Option<seq<Person>>)
    requires cur < |all| && i <= |all[cur].good|
    reads all
    ensures r.Some? ==> |r.value| == |all| - cur
    decreases |all| - cur, 0, |all[cur].good| - i
  {
    if i == |all[cur].good| then None
    else
      var t := all[cur].good[i];
      if t in used then TryFrom(all, cur, used, i + 1)
      else match Search(all, cur + 1, used + {t})
        case Some(p) => Some([t] + p)
        case None => TryFrom(all, cur, used, i + 1)
  }

  /**
    A way to give each of `all[cur..]` a receiver: the `k`-th is on the
    candidate list of `all[cur + k]`, none is in `used`, no two are the same.
  */
  ghost predicate IsChoice(all: seq<Person>, cur: nat, used: set<Person>, p: seq<Person>)
    requires cur <= |all|
    reads all
  {
    && |p| == |all| - cur
    && (forall k :: 0 <= k < |p| ==> p[k] in all[cur + k].good && p[k] !in used)
    && (forall j, k :: 0 <= j < k < |p| ==> p[j] != p[k])
  }

  /** Removing the first pick of a choice leaves a choice for the rest, with that pick taken. */
  lemma ChoiceTail(all: seq<Person>, cur: nat, used: set<Person>, p: seq<Person>)
    requires cur < |all| && IsChoice(all, cur, used, p)
    ensures IsChoice(all, cur + 1, used + {p[0]}, p[1..])
  {
    var q := p[1..];
    forall k | 0 <= k < |q| ensures q[k] in all[cur + 1 + k].good && q[k] !in used + {p[0]} {
      assert q[k] == p[k + 1];
    }
    forall j, k | 0 <= j < k < |q| ensures q[j] != q[k] {
      assert q[j] == p[j + 1] && q[k] == p[k + 1];
    }
  }

  /** A first pick and a choice for the rest that avoids it make a choice. */
  lemma ChoiceCons(all: seq<Person>, cur: nat, used: set<Person>, t: Person, p: seq<Person>)
    requires cur < |all| && t in all[cur].good && t !in used
    requires IsChoice(all, cur + 1, used + {t}, p)
    ensures IsChoice(all, cur, used, [t] + p)
  {
    var q := [t] + p;
    forall k | 0 <= k < |q| ensures q[k] in all[cur + k].good && q[k] !in used {
      if k > 0 { assert q[k] == p[k - 1]; }
    }
    forall j, k | 0 <= j < k < |q| ensures q[j] != q[k] {
      assert q[k] == p[k - 1];
      if j > 0 { assert q[j] == p[j - 1]; }
    }
  }

  /** What `solve` finds is a choice. */
  lemma {:induction false} SearchSound(all: seq<Person>, cur: nat, used: set<Person>)
    requires cur <= |all|
    ensures Search(all, cur, used).Some? ==> IsChoice(all, cur, used, Search(all, cur, used).value)
    decreases |all| - cur, 1
  {
    if cur < |all| {
      TrySound(all, cur, used, 0);
    }
  }

  /** What the loop over the candidates finds is a choice. */
  lemma {:induction false} TrySound(all: seq<Person>, cur: nat, used: set<Person>, i: nat)
    requires cur < |all| && i <= |all[cur].good|
    ensures TryFrom(all, cur, used, i).Some? ==> IsChoice(all, cur, used, TryFrom(all, cur, used, i).value)
    decreases |all| - cur, 0, |all[cur].good| - i
  {
    if i < |all[cur].good| {
      var t := all[cur].good[i];
      if t in used {
        TrySound(all, cur, used, i + 1);
      } else {
        match Search(all, cur + 1, used + {t})
        case Some(p) =>
          SearchSound(all, cur + 1, used + {t});
          ChoiceCons(all, cur, used, t, p);
        case None =>
          TrySound(all, cur, used, i + 1);
      }
    }
  }

  /** `solve` fails only when there is no choice at all. */
  lemma {:induction false} SearchComplete(all: seq<Person>, cur: nat, used: set<Person>, p: seq<Person>)
    requires cur <= |all| && IsChoice(all, cur, used, p)
    ensures Search(all, cur, used).Some?
    decreases |all| - cur, 1
  {
    if cur < |all| {
      assert p[0] in all[cur].good[0..];
      TryComplete(all, cur, used, 0, p);
    }
  }

  /** The loop finds a choice when one exists whose first pick it has yet to try. */
  lemma {:induction false} TryComplete(all: seq<Person>, cur: nat, used: set<Person>, i: nat, p: seq<Person>)
    requires cur < |all| && i <= |all[cur].good|
    requires IsChoice(all, cur, used, p) && p[0] in all[cur].good[i..]
    ensures TryFrom(all, cur, used, i).Some?
    decreases |all| - cur, 0, |all[cur].good| - i
  {
    var good := all[cur].good;
    var t := good[i];
    if t == p[0] {
      ChoiceTail(all, cur, used, p);
      SearchComplete(all, cur + 1, used + {t}, p[1..]);
    } else {
      assert p[0] in good[i + 1..] by {
        var k :| i <= k < |good| && good[k] == p[0];
      }
      if t !in used && Search(all, cur + 1, used + {t}).Some? {
      } else {
        TryComplete(all, cur, used, i + 1, p);
      }
    }
  }

  /** `solve` succeeds if and only if some choice exists. */
  lemma SearchIff(all: seq<Person>, used: set<Person>)
    ensures Search(all, 0, used).Some? <==> exists p :: IsChoice(all, 0, used, p)
  {
    SearchSound(all, 0, used);
    if p :| IsChoice(all, 0, used, p) {
      SearchComplete(all, 0, used, p);
    }
  }

  // ---------------------------------------------------------------------------
  // The result map
  // ---------------------------------------------------------------------------

  /** The map `solve` builds as the recursion unwinds: `all[k]` is sent to the `(k - cur)`-th pick. */
  function Pairing(all: seq<Person>, cur: nat, p: seq<Person>): (m: map<Person, Person>)
    requires cur <= |all| && |p| == |all| - cur
    decreases |all| - cur
  {
    if cur == |all| then map[] else Pairing(all, cur + 1, p[1..])[all[cur] := p[0]]
  }

  /** What `solve(all, cur, assigned)` returns when `used` is taken at entry. */
  function Outcome(all: seq<Person>, cur: nat, used: set<Person>): (r: Option<map<Person, Person>>)
    requires cur <= |all|
    reads all
  {
    match Search(all, cur, used)
    case None => None
    case Some(p) => Some(Pairing(all, cur, p))
  }

  /** The people marked taken by a search: the picks of a success, none for a failure. */
  function Marked(r: Option<seq<Person>>): set<Person> {
    match r
    case None => {}
    case Some(p) => set x | x in p
  }

  /**
    The map built from a choice gives every one of `all[cur..]` a receiver,
    and nobody else; each receiver is on its giver's candidate list and was
    not taken; no two givers share a receiver.
  */
  lemma {:induction false} PairingMeaning(all: seq<Person>, cur: nat, used: set<Person>, p: seq<Person>)
    requires cur <= |all| && IsChoice(all, cur, used, p)
    ensures forall x :: x in Pairing(all, cur, p) <==> x in all[cur..]
    ensures forall x :: x in Pairing(all, cur, p) ==> Pairing(all, cur, p)[x] in x.good && Pairing(all, cur, p)[x] !in used
    ensures forall x, y :: x in Pairing(all, cur, p) && y in Pairing(all, cur, p) && x != y ==> Pairing(all, cur, p)[x] != Pairing(all, cur, p)[y]
    decreases |all| - cur
  {
    if cur < |all| {
      var t := p[0];
      var rest := Pairing(all, cur + 1, p[1..]);
      ChoiceTail(all, cur, used, p);
      PairingMeaning(all, cur + 1, used + {t}, p[1..]);
      assert all[cur..] == [all[cur]] + all[cur + 1..];
    }
  }

  // ---------------------------------------------------------------------------
  // solve
  // ---------------------------------------------------------------------------

  /**
    When the `i`-th candidate is free and the rest of the search succeeds
    with it taken, `solve` records that candidate for `all[cur]` on top of
    the map of the rest.
  */
  lemma SolveStep(all: seq<Person>, cur: nat, used: set<Person>, i: nat)
    requires cur < |all| && i < |all[cur].good|
    requires all[cur].good[i] !in used
    requires TryFrom(all, cur, used, i) == Search(all, cur, used)
    requires Search(all, cur + 1, used + {all[cur].good[i]}).Some?
    ensures var t := all[cur].good[i];
      && Outcome(all, cur, used) == Some(Outcome(all, cur + 1, used + {t}).value[all[cur] := t])
      && Marked(Search(all, cur, used)) == {t} + Marked(Search(all, cur + 1, used + {t}))
  {
    var t := all[cur].good[i];
    var p := Search(all, cur + 1, used + {t}).value;
    assert Search(all, cur, used) == Some([t] + p);
    assert ([t] + p)[1..] == p;
  }

  /**
    `solve`: depth-first search for a receiver for each of `all[cur..]`. On
    success the receivers it picked stay marked in `assigned`; on failure
    every mark it made is removed again.
  */
  method Solve(all: seq<Person>, cur: nat, taken: Taken) returns (r: Option<map<Person, Person>>)
    requires cur <= |all|
    modifies taken
    ensures r == Outcome(all, cur, old(taken.used))
    ensures taken.used == old(taken.used) + Marked(Search(all, cur, old(taken.used)))
    decreases |all| - cur
  {
    if cur == |all| {
      return Some(map[]);
    }
    ghost var used := taken.used;
    var c := all[cur];
    var next := cur + 1;
    for i := 0 to |c.good|
      invariant taken.used == used
      invariant TryFrom(all, cur, used, i) == Search(all, cur, used)
    {
      var t := c.good[i];
      if t in taken.used {
        continue;
      }
      taken.used := taken.used + {t};
      var sub := Solve(all, next, taken);
      if sub.Some? {
        SolveStep(all, cur, used, i);
        return Some(sub.value[c := t]);
      }
      taken.used := taken.used - {t};
    }
    return None;
  }

  // ---------------------------------------------------------------------------
  // What a successful run means for the whole party
  // ---------------------------------------------------------------------------

  /** A set inside another is no larger, and the same size only when equal. */
  lemma {:induction false} SubsetSize<T>(a: set<T>, b: set<T>)
    requires a <= b
    ensures |a| <= |b|
    ensures |a| == |b| ==> a == b
    decreases b
  {
    if b != {} {
      var x :| x in b;
      SubsetSize(a - {x}, b - {x});
      if x in a {
        assert a == (a - {x}) + {x} && b == (b - {x}) + {x};
      } else {
        assert a - {x} == a;
      }
    }
  }

  /** An injective map has as many values as keys. */
  lemma {:induction false} InjectiveSize<K, V>(m: map<K, V>)
    requires forall x, y :: x in m && y in m && x != y ==> m[x] != m[y]
    ensures |m.Values| == |m.Keys|
    decreases m.Keys
  {
    if m.Keys != {} {
      var k :| k in m;
      var m' := m - {k};
      assert m'.Keys == m.Keys - {k};
      assert m'.Values == m.Values - {m[k]} by {
        forall v | v in m.Values - {m[k]} ensures v in m'.Values {
          var x :| x in m && m[x] == v;
          assert x in m';
        }
      }
      InjectiveSize(m');
    }
  }

  /**
    A secret-santa matching of the party: every person gives to exactly one
    person of the party, no two give to the same person, nobody gives to
    themselves or to anyone sharing an exclusion group with them.
    `MatchingOnto` shows that every person then also receives exactly once.
    The receiver clause is triggered on membership, so the verifier does not
    follow a receiver's receiver around the party on its own.
  */
  predicate IsMatching(people: map<string, Person>, g: seq<set<Person?>>, m: map<Person, Person>) {
    && m.Keys == people.Values
    && (forall x {:trigger m[x] in people.Values} :: x in m ==> m[x] in people.Values)
    && (forall x, y {:trigger m[x], m[y]} :: x in m && y in m && x != y ==> m[x] != m[y])
    && (forall x {:trigger m[x]} :: x in m ==> m[x] != x && m[x] !in Forbidden(g, x))
  }

  /** An injective map whose values are among its keys reaches every key. */
  lemma SelfMapOnto(m: map<Person, Person>)
    requires m.Values <= m.Keys
    requires forall x, y :: x in m && y in m && x != y ==> m[x] != m[y]
    ensures m.Values == m.Keys
  {
    InjectiveSize(m);
    SubsetSize(m.Values, m.Keys);
  }

  /** In a matching every person of the party receives a gift, from exactly one giver. */
  lemma MatchingOnto(people: map<string, Person>, g: seq<set<Person?>>, m: map<Person, Person>)
    requires IsMatching(people, g, m)
    ensures m.Values == people.Values
    ensures forall y :: y in people.Values ==> exists x :: x in m && m[x] == y
  {
    OntoItself(m, people.Values);
  }

  /** An injective map from a set into itself reaches every element, each from one key. */
  lemma OntoItself(m: map<Person, Person>, s: set<Person>)
    requires m.Keys == s
    requires forall x :: x in m ==> m[x] in s
    requires forall x, y :: x in m && y in m && x != y ==> m[x] != m[y]
    ensures m.Values == s
    ensures forall y :: y in s ==> exists x :: x in m && m[x] == y
  {
    SelfMapInto(m);
    SelfMapOnto(m);
    Preimages(m, s);
  }

  /** A map whose every value is a key has its values among its keys. */
  lemma SelfMapInto(m: map<Person, Person>)
    requires forall x :: x in m ==> m[x] in m.Keys
    ensures m.Values <= m.Keys
  {
    forall y | y in m.Values ensures y in m.Keys {
      var x :| x in m && m[x] == y;
    }
  }

  /** Every value of a map has a key that maps to it. */
  lemma Preimages(m: map<Person, Person>, s: set<Person>)
    requires m.Values == s
    ensures forall y :: y in s ==> exists x :: x in m && m[x] == y
  {
    forall y | y in s ensures exists x :: x in m && m[x] == y {
      assert y in m.Values;
    }
  }

  /** The people on a list. */
  function Listed(all: seq<Person>): set<Person> {
    set x | x in all
  }

  /**
    A result of `solve` from an empty `assigned` gives each listed person a
    receiver from their candidate list, and no two the same receiver.
  */
  lemma OutcomePairs(all: seq<Person>, m: map<Person, Person>)
    requires Outcome(all, 0, {}) == Some(m)
    ensures m.Keys == Listed(all)
    ensures forall x :: x in m ==> x in all && m[x] in x.good
    ensures forall x, y :: x in m && y in m && x != y ==> m[x] != m[y]
  {
    var p := Search(all, 0, {}).value;
    SearchSound(all, 0, {});
    PairingMeaning(all, 0, {}, p);
    assert all[0..] == all;
  }

  /** Receivers drawn from lists `buildDomains` made are people of the party whom their giver may give to. */
  lemma GoodReceivers(all: seq<Person>, people: map<string, Person>, g: seq<set<Person?>>, m: map<Person, Person>)
    requires forall x :: x in m ==> x in all && m[x] in x.good
    requires forall k :: 0 <= k < |all| ==> GoodFor(all[k], people, g)
    ensures forall x :: x in m ==> m[x] != x && m[x] !in Forbidden(g, x)
    ensures m.Values <= people.Values
  {
    forall x | x in m ensures m[x] in people.Values && m[x] != x && m[x] !in Forbidden(g, x) {
      var k :| 0 <= k < |all| && all[k] == x;
      assert GoodFor(all[k], people, g);
    }
    forall v | v in m.Values ensures v in people.Values {
      var x :| x in m && m[x] == v;
    }
  }

  /**
    Run on the output of `buildDomains`, a result of `solve` from an empty
    `assigned` is a matching of the whole party.
  */
  lemma SolveMatches(all: seq<Person>, people: map<string, Person>, g: seq<set<Person?>>, m: map<Person, Person>)
    requires forall x :: x in all <==> x in people.Values
    requires forall k :: 0 <= k < |all| ==> GoodFor(all[k], people, g)
    requires Outcome(all, 0, {}) == Some(m)
    ensures IsMatching(people, g, m)
  {
    OutcomePairs(all, m);
    GoodReceivers(all, people, g, m);
    assert Listed(all) == people.Values;
  }

  /** The receivers `mm` gives the people of `all`, in list order. */
  function Receivers(all: seq<Person>, mm: map<Person, Person>): (r: seq<Person>)
    requires forall k :: 0 <= k < |all| ==> all[k] in mm
    ensures |r| == |all| && forall k :: 0 <= k < |all| ==> r[k] == mm[all[k]]
  {
    if all == [] then [] else Receivers(all[..|all| - 1], mm) + [mm[all[|all| - 1]]]
  }

  /** A matching of the party gives a receiver to each person listed on `all`. */
  lemma ListedGive(all: seq<Person>, people: map<string, Person>, g: seq<set<Person?>>, mm: map<Person, Person>)
    requires forall x :: x in all ==> x in people.Values
    requires IsMatching(people, g, mm)
    ensures forall k :: 0 <= k < |all| ==> all[k] in mm
  {
    forall k | 0 <= k < |all| ensures all[k] in mm {
      assert all[k] in all;
    }
  }

  /** In a table `readInPeople` builds, no two people share a name. */
  lemma NamedUnique(people: map<string, Person>)
    requires Named(people)
    ensures forall x, y :: x in people.Values && y in people.Values && x.name == y.name ==> x == y
  {
    forall x, y | x in people.Values && y in people.Values && x.name == y.name ensures x == y {
      var a :| a in people && people[a] == x;
      var b :| b in people && people[b] == y;
    }
  }

  /**
    `buildDomains` is deterministic: on a table `readInPeople` builds, two
    runs from the same groups and the same draws list the people in the same
    order and deal them the same candidate lists, whatever order the map is
    visited in.
  */
  lemma SameDeal(vs1: seq<Person>, vs2: seq<Person>, goods1: seq<seq<Person>>, goods2: seq<seq<Person>>,
                 people: map<string, Person>, g: seq<set<Person?>>, source: nat -> nat, k0: nat)
    requires Named(people)
    requires SortedByName(vs1) && Distinct(vs1) && forall x :: x in vs1 <==> x in people.Values
    requires SortedByName(vs2) && Distinct(vs2) && forall x :: x in vs2 <==> x in people.Values
    requires DealtFrom(vs1, goods1, people, g, source, k0) && DealtFrom(vs2, goods2, people, g, source, k0)
    ensures vs1 == vs2 && goods1 == goods2
  {
    NamedUnique(people);
    DistinctBag(vs1, people.Values);
    DistinctBag(vs2, people.Values);
    forall i, j | 0 <= i < j < |vs1| ensures vs1[i].name != vs1[j].name {
      assert vs1[i] in vs1 && vs1[j] in vs1;
    }
    SortedUnique(vs1, vs2);
    DealtFromUnique(vs1, goods1, goods2, people, g, source, k0);
  }

  /**
    Over lists `buildDomains` made, listing each person of the party once, a
    matching of the party read off in list order is a choice.
  */
  lemma MatchingChoice(all: seq<Person>, people: map<string, Person>, g: seq<set<Person?>>, mm: map<Person, Person>)
    requires forall x :: x in all ==> x in people.Values
    requires Distinct(all)
    requires forall k :: 0 <= k < |all| ==> GoodFor(all[k], people, g)
    requires IsMatching(people, g, mm)
    ensures exists p :: IsChoice(all, 0, {}, p)
  {
    ListedGive(all, people, g, mm);
    MatchingGives(people, g, mm);
    ReadOff(all, people, g, mm);
  }

  /** What a matching says about each giver's receiver. */
  lemma MatchingGives(people: map<string, Person>, g: seq<set<Person?>>, mm: map<Person, Person>)
    requires IsMatching(people, g, mm)
    ensures forall x {:trigger mm[x] in people.Values} :: x in mm ==> mm[x] in people.Values
    ensures forall x :: x in mm ==> mm[x] != x && mm[x] !in Forbidden(g, x)
    ensures forall x, y :: x in mm && y in mm && x != y ==> mm[x] != mm[y]
  {
  }

  /** The receivers of a matching, listed in the order of their givers on `all`, are a choice. */
  lemma ReadOff(all: seq<Person>, people: map<string, Person>, g: seq<set<Person?>>, mm: map<Person, Person>)
    requires Distinct(all)
    requires forall k :: 0 <= k < |all| ==> GoodFor(all[k], people, g)
    requires forall x :: x in mm ==> mm[x] in people.Values && mm[x] != x && mm[x] !in Forbidden(g, x)
    requires forall x, y :: x in mm && y in mm && x != y ==> mm[x] != mm[y]
    requires forall k :: 0 <= k < |all| ==> all[k] in mm
    ensures IsChoice(all, 0, {}, Receivers(all, mm))
    ensures exists p :: IsChoice(all, 0, {}, p)
  {
    var p := Receivers(all, mm);
    forall k | 0 <= k < |p| ensures p[k] in all[k].good {
      var x := all[k];
      assert GoodList(x, x.good, people, g);
    }
    forall j, k | 0 <= j < k < |p| ensures p[j] != p[k] {
      assert all[j] != all[k];
    }
    assert IsChoice(all, 0, {}, p);
  }

  /**
    Run on lists `buildDomains` made that hold each person of the party once,
    `solve` from an empty `assigned` succeeds if and only if the party has a
    matching.
  */
  lemma SolveIffMatching(all: seq<Person>, people: map<string, Person>, g: seq<set<Person?>>)
    requires forall x :: x in all <==> x in people.Values
    requires Distinct(all)
    requires forall k :: 0 <= k < |all| ==> GoodFor(all[k], people, g)
    ensures Outcome(all, 0, {}).Some? <==> exists mm :: IsMatching(people, g, mm)
    ensures Outcome(all, 0, {}).None? ==> forall mm :: !IsMatching(people, g, mm)
  {
    SearchIff(all, {});
    if Outcome(all, 0, {}).Some? {
      SolveMatches(all, people, g, Outcome(all, 0, {}).value);
    }
    if mm :| IsMatching(people, g, mm) {
      MatchingChoice(all, people, g, mm);
    }
  }

  /** In a table `readInPeople` builds, different names hold different people. */
  lemma NamedInjective(people: map<string, Person>)
    requires Named(people)
    ensures Injective(people)
  {
    forall a, b | a in people && b in people && a != b ensures people[a] != people[b] {
      assert people[a].name == a && people[b].name == b;
    }
  }

  /**
    The search of `main` over the lists `buildDomains` made, from an empty
    `assigned`. The result is the depth-first search `Outcome`, a function
    of the order and the lists alone. A result is a matching of the party; `nil` means the
    candidate lists admit no choice at all, and then, when no two names
    share a person, that the party has no matching.
  */
  method Pick(all: seq<Person>, ghost people: map<string, Person>, ghost g: seq<set<Person?>>) returns (m: Option<map<Person, Person>>)
    requires forall x :: x in all <==> x in people.Values
    requires forall k :: 0 <= k < |all| ==> GoodFor(all[k], people, g)
    requires Injective(people) ==> Distinct(all)
    ensures m == Outcome(all, 0, {})
    ensures m.Some? ==> IsMatching(people, g, m.value)
    ensures m.None? ==> !exists p :: IsChoice(all, 0, {}, p)
    ensures m.None? && Injective(people) ==> forall mm :: !IsMatching(people, g, mm)
  {
    var taken := new Taken();
    m := Solve(all, 0, taken);
    if m.Some? {
      SolveMatches(all, people, g, m.value);
    } else {
      SearchIff(all, {});
      if Injective(people) {
        SolveIffMatching(all, people, g);
      }
    }
  }

  /**
    The matching step of `main`: build the domains, then search them. The
    domains are as `BuildDomains` promises, and the result is `Outcome` on
    them, so the same people, groups and draws give the same matching; a result is a matching of the
    party; `nil` means the candidate lists admit no choice at all, and then,
    when no two names share a person, that the party has no matching.
  */
  method Match(people: map<string, Person>, bad: seq<BadSet>, r: Rand) returns (all: array<Person>, m: Option<map<Person, Person>>)
    modifies people.Values, r
    ensures fresh(all)
    ensures SortedByName(all[..]) && all.Length == |people|
    ensures forall x :: x in all[..] <==> x in people.Values
    ensures forall k :: 0 <= k < all.Length ==> GoodFor(all[k], people, old(Sets(bad)))
    ensures Injective(people) ==> r.draws == old(r.draws) + DrawsFor(all[..], people, old(Sets(bad)))
    ensures Injective(people) ==> DealtFrom(all[..], Goods(all[..]), people, old(Sets(bad)), r.source, old(r.draws))
    ensures m == Outcome(all[..], 0, {})
    ensures m.Some? ==> IsMatching(people, old(Sets(bad)), m.value)
    ensures m.None? ==> !exists p :: IsChoice(all[..], 0, {}, p)
    ensures m.None? && Injective(people) ==> forall mm :: !IsMatching(people, old(Sets(bad)), mm)
  {
    ghost var g := Sets(bad);
    all := BuildDomains(people, bad, r);
    ghost var goods := Goods(all[..]);
    m := Pick(all[..], people, g);
    assert Goods(all[..]) == goods;
  }
}
