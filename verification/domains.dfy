/**
  From exclusion groups and the people map to each person's candidate list:
  `compileBadSet`, `makeDomain`, `shuffle` and `buildDomains` of
  secretsanta.go.
*/
module Domains {
  import opened Wrappers
  import opened People

  // ---------------------------------------------------------------------------
  // Exclusion groups as values
  // ---------------------------------------------------------------------------

  /** The contents of each exclusion set, in order. */
  function Sets(bads: seq<BadSet>): (g: seq<set<Person?>>)
    reads bads
    ensures |g| == |bads|
    ensures forall i :: 0 <= i < |bads| ==> g[i] == bads[i].pbad
  {
    if bads == [] then [] else Sets(bads[..|bads| - 1]) + [bads[|bads| - 1].pbad]
  }

  /** Everybody named in some group. */
  function Members(g: seq<set<Person?>>): set<Person?> {
    if g == [] then {} else Members(g[..|g| - 1]) + g[|g| - 1]
  }

  /** The people `p` must not be matched with: the union of every group that holds `p`. */
  function Forbidden(g: seq<set<Person?>>, p: Person?): set<Person?> {
    if g == [] then {}
    else Forbidden(g[..|g| - 1], p) + (if p in g[|g| - 1] then g[|g| - 1] else {})
  }

  /** A member is a person some group names. */
  lemma {:induction false} MembersMeaning(g: seq<set<Person?>>, p: Person?)
    ensures p in Members(g) <==> exists i :: 0 <= i < |g| && p in g[i]
  {
    if g != [] {
      var h := g[..|g| - 1];
      MembersMeaning(h, p);
      if p in Members(h) {
        var i :| 0 <= i < |h| && p in h[i];
        assert p in g[i];
      }
      if exists i :: 0 <= i < |g| && p in g[i] {
        var i :| 0 <= i < |g| && p in g[i];
        if i < |h| { assert p in h[i]; }
      }
    }
  }

  /** `q` is forbidden to `p` exactly when one group holds both. */
  lemma {:induction false} ForbiddenMeaning(g: seq<set<Person?>>, p: Person?, q: Person?)
    ensures q in Forbidden(g, p) <==> exists i :: 0 <= i < |g| && p in g[i] && q in g[i]
  {
    if g != [] {
      var h := g[..|g| - 1];
      ForbiddenMeaning(h, p, q);
      if q in Forbidden(h, p) {
        var i :| 0 <= i < |h| && p in h[i] && q in h[i];
        assert p in g[i] && q in g[i];
      }
      if exists i :: 0 <= i < |g| && p in g[i] && q in g[i] {
        var i :| 0 <= i < |g| && p in g[i] && q in g[i];
        if i < |h| { assert p in h[i] && q in h[i]; }
      }
    }
  }

  /** Every member is in its own forbidden set. */
  lemma SelfForbidden(g: seq<set<Person?>>, p: Person?)
    requires p in Members(g)
    ensures p in Forbidden(g, p)
  {
    MembersMeaning(g, p);
    ForbiddenMeaning(g, p, p);
  }

  /** Exclusion works both ways. */
  lemma ForbiddenMutual(g: seq<set<Person?>>, p: Person?, q: Person?)
    ensures q in Forbidden(g, p) <==> p in Forbidden(g, q)
  {
    ForbiddenMeaning(g, p, q);
    ForbiddenMeaning(g, q, p);
  }

  /** Somebody no group names has nothing forbidden. */
  lemma ForbiddenOutside(g: seq<set<Person?>>, p: Person?)
    requires p !in Members(g)
    ensures Forbidden(g, p) == {}
  {
    MembersMeaning(g, p);
    forall q ensures q !in Forbidden(g, p) {
      ForbiddenMeaning(g, p, q);
    }
  }

  // ---------------------------------------------------------------------------
  // compileBadSet
  // ---------------------------------------------------------------------------

  /**
    The per-person sets `c` hold the groups `g` compiled, with the group `s`
    added to the sets of the members `done` already handled.
  */
  ghost predicate Holds(c: map<Person?, set<Person?>>, g: seq<set<Person?>>, s: set<Person?>, done: set<Person?>) {
    && c.Keys == Members(g) + done
    && forall q :: q in c ==> c[q] == Forbidden(g, q) + (if q in done then s else {})
  }

  /** The per-person sets `c` are those of the groups `g`: each member gets the union of the groups that name them. */
  ghost predicate Compiles(c: map<Person?, set<Person?>>, g: seq<set<Person?>>) {
    && c.Keys == Members(g)
    && (forall p :: p in c ==> c[p] == Forbidden(g, p))
  }

  lemma CompilesHolds(c: map<Person?, set<Person?>>, g: seq<set<Person?>>)
    requires Holds(c, g, {}, {})
    ensures Compiles(c, g)
  {
    forall p | p in c ensures c[p] == Forbidden(g, p) {
      assert c[p] == Forbidden(g, p) + {};
    }
  }

  /** Adds the group `s` to the set of `p`, which is empty if `p` has none yet. */
  function AddTo(c: map<Person?, set<Person?>>, p: Person?, s: set<Person?>): map<Person?, set<Person?>> {
    c[p := (if p in c then c[p] else {}) + s]
  }

  /** Handling one more member `p` of the group. */
  lemma HoldsStep(c: map<Person?, set<Person?>>, g: seq<set<Person?>>, s: set<Person?>, done: set<Person?>, p: Person?)
    requires Holds(c, g, s, done) && p !in done
    ensures Holds(AddTo(c, p, s), g, s, done + {p})
  {
    if p !in c {
      ForbiddenOutside(g, p);
    }
  }

  /** Adding a whole group is compiling one group more. */
  lemma HoldsNext(c: map<Person?, set<Person?>>, g: seq<set<Person?>>, s: set<Person?>)
    requires Holds(c, g, s, s)
    ensures Holds(c, g + [s], {}, {})
  {
    assert (g + [s])[..|g|] == g;
  }

  /** The contents of the sets of a per-person map. */
  function Contents(ret: map<Person?, BadSet>): (c: map<Person?, set<Person?>>)
    reads ret.Values
    ensures c.Keys == ret.Keys
  {
    map p | p in ret :: ret[p].pbad
  }

  /** The sets of a per-person map are distinct objects and none of them is one of `bads`. */
  ghost predicate Separate(ret: map<Person?, BadSet>, bads: seq<BadSet>) {
    && (forall p, q :: p in ret && q in ret && p != q ==> ret[p] != ret[q])
    && (forall p :: p in ret ==> ret[p] !in bads)
  }

  /**
    One step of the inner loop of `compileBadSet`: `p`'s set, made on first
    use, receives every member of `v`.
  */
  method AddGroup(ret: map<Person?, BadSet>, p: Person?, v: BadSet, ghost bads: seq<BadSet>) returns (ret': map<Person?, BadSet>)
    requires Separate(ret, bads) && v in bads
    modifies ret.Values
    ensures Separate(ret', bads)
    ensures forall q :: q in ret' ==> (q in ret && ret'[q] == ret[q]) || fresh(ret'[q])
    ensures v.pbad == old(v.pbad)
    ensures Contents(ret') == AddTo(old(Contents(ret)), p, v.pbad)
  {
    ret' := ret;
    if p !in ret {
      var b := new BadSet();
      ret' := ret[p := b];
    }
    ret'[p].AddAll(v);
  }

  /** The inner loop of `compileBadSet`: every member of `v` receives all of `v`. */
  method AddMembers(ret: map<Person?, BadSet>, v: BadSet, ghost bads: seq<BadSet>, ghost g: seq<set<Person?>>) returns (ret': map<Person?, BadSet>)
    requires Separate(ret, bads) && v in bads
    requires Holds(Contents(ret), g, {}, {})
    modifies ret.Values
    ensures Separate(ret', bads)
    ensures forall q :: q in ret' ==> ret'[q] in ret.Values || fresh(ret'[q])
    ensures v.pbad == old(v.pbad)
    ensures Holds(Contents(ret'), g + [v.pbad], {}, {})
  {
    ghost var s := v.pbad;
    ghost var done: set<Person?> := {};
    var todo := v.pbad;
    ret' := ret;
    while todo != {}
      invariant todo + done == s && todo !! done
      invariant v.pbad == s
      invariant Separate(ret', bads)
      invariant forall q :: q in ret' ==> ret'[q] in ret.Values || fresh(ret'[q])
      invariant Holds(Contents(ret'), g, s, done)
      decreases todo
    {
      var p :| p in todo;
      HoldsStep(Contents(ret'), g, s, done, p);
      ret' := AddGroup(ret', p, v, bads);
      todo := todo - {p};
      done := done + {p};
    }
    HoldsNext(Contents(ret'), g, s);
  }

  /** The loop of `compileBadSet`, over groups whose contents are `g`. */
  method CompileGroups(bads: seq<BadSet>, ghost g: seq<set<Person?>>) returns (ret: map<Person?, BadSet>)
    requires |g| == |bads| && forall k :: 0 <= k < |bads| ==> bads[k].pbad == g[k]
    ensures Holds(Contents(ret), g, {}, {})
    ensures Separate(ret, bads)
  {
    ret := map[];
    for i := 0 to |bads|
      invariant forall k :: 0 <= k < |bads| ==> bads[k].pbad == g[k]
      invariant Separate(ret, bads)
      invariant forall p :: p in ret ==> fresh(ret[p])
      invariant Holds(Contents(ret), g[..i], {}, {})
    {
      assert g[..i + 1] == g[..i] + [bads[i].pbad];
      ret := AddMembers(ret, bads[i], bads, g[..i]);
    }
    assert g[..|bads|] == g;
  }

  /**
    `compileBadSet`: a map giving each person named in some group the union
    of the groups that name them. Each map entry is a new set; the groups
    themselves are left alone.
  */
  method CompileBadSet(bads: seq<BadSet>) returns (ret: map<Person?, BadSet>)
    ensures Compiles(Contents(ret), old(Sets(bads)))
    ensures Separate(ret, bads)
  {
    ret := CompileGroups(bads, Sets(bads));
    CompilesHolds(Contents(ret), old(Sets(bads)));
  }

  // ---------------------------------------------------------------------------
  // Ranging over a map
  // ---------------------------------------------------------------------------

  /** `order` lists every key of `keys` exactly once. */
  ghost predicate Enumerates(order: seq<string>, keys: set<string>) {
    && (forall i, j :: 0 <= i < j < |order| ==> order[i] != order[j])
    && (forall k :: k in order <==> k in keys)
  }

  /**
    The order in which `for ... range` visits the keys of a map. Go leaves it
    unspecified, so it is chosen here without constraint.
  */
  method RangeOrder<V>(m: map<string, V>) returns (order: seq<string>)
    ensures Enumerates(order, m.Keys)
    ensures |order| == |m|
  {
    var todo := m.Keys;
    order := [];
    while todo != {}
      invariant forall i, j :: 0 <= i < j < |order| ==> order[i] != order[j]
      invariant forall k :: k in order <==> k in m.Keys - todo
      invariant todo <= m.Keys
      invariant |order| == |m.Keys| - |todo|
      decreases todo
    {
      var k :| k in todo;
      assert k !in order;
      order := order + [k];
      todo := todo - {k};
    }
  }

  /** No person is listed twice. */
  predicate Distinct(s: seq<Person>) {
    forall i, j :: 0 <= i < j < |s| ==> s[i] != s[j]
  }

  /** No two names of the map lead to the same person. */
  predicate Injective(m: map<string, Person>) {
    forall a, b :: a in m && b in m && a != b ==> m[a] != m[b]
  }

  /** A person listed once is counted once. */
  lemma {:induction false} DistinctCount(s: seq<Person>, x: Person)
    requires Distinct(s)
    ensures multiset(s)[x] <= 1
  {
    if s != [] {
      var h := s[..|s| - 1];
      assert s == h + [s[|s| - 1]];
      assert forall i, j :: 0 <= i < j < |h| ==> h[i] == s[i] && h[j] == s[j];
      DistinctCount(h, x);
      assert s[|s| - 1] !in h by {
        assert forall i :: 0 <= i < |h| ==> h[i] == s[i];
      }
    }
  }

  /** A person listed at two places is counted at least twice. */
  lemma TwoCopies(b: seq<Person>, i: int, j: int)
    requires 0 <= i < j < |b| && b[i] == b[j]
    ensures multiset(b)[b[i]] >= 2
  {
    var x := b[i];
    assert b == b[..j] + [b[j]] + b[j + 1..];
    assert x in multiset(b[..j]) by { assert b[..j][i] == x; }
    assert multiset(b) == multiset(b[..j]) + multiset{x} + multiset(b[j + 1..]);
  }

  /** Being listed once survives any reordering. */
  lemma DistinctPermutation(a: seq<Person>, b: seq<Person>)
    requires Distinct(a) && multiset(a) == multiset(b)
    ensures Distinct(b)
  {
    forall i, j | 0 <= i < j < |b| ensures b[i] != b[j] {
      if b[i] == b[j] {
        TwoCopies(b, i, j);
        DistinctCount(a, b[i]);
        assert false;
      }
    }
  }

  // ---------------------------------------------------------------------------
  // makeDomain
  // ---------------------------------------------------------------------------

  /**
    Whether `makeDomain` keeps `v` for `cur`: with no exclusion set it drops
    only `cur`; with one it drops exactly its members.
  */
  predicate Allowed(cur: Person, ex: Option<set<Person?>>, v: Person) {
    match ex
    case None => v != cur
    case Some(s) => v !in s
  }

  /** The exclusion set passed to `makeDomain`, or none for a nil pointer. */
  function Excl(bad: BadSet?): Option<set<Person?>>
    reads bad
  {
    if bad == null then None else Some(bad.pbad)
  }

  /** The people of `all`, visited in key order `order`, that `makeDomain` keeps. */
  function Keep(order: seq<string>, all: map<string, Person>, cur: Person, ex: Option<set<Person?>>): (r: seq<Person>)
    requires forall k :: k in order ==> k in all
    ensures |r| <= |order|
  {
    if order == [] then []
    else
      var v := all[order[|order| - 1]];
      Keep(order[..|order| - 1], all, cur, ex) + (if Allowed(cur, ex, v) then [v] else [])
  }

  /** `makeDomain` keeps exactly the allowed people it visits. */
  lemma {:induction false} KeepMembers(order: seq<string>, all: map<string, Person>, cur: Person, ex: Option<set<Person?>>, x: Person)
    requires forall k :: k in order ==> k in all
    ensures x in Keep(order, all, cur, ex) <==> Allowed(cur, ex, x) && exists k :: k in order && all[k] == x
  {
    if order != [] {
      var h := order[..|order| - 1];
      var last := order[|order| - 1];
      KeepMembers(h, all, cur, ex, x);
      assert forall k :: k in order <==> k in h || k == last;
    }
  }

  /** Visiting distinct keys of an injective map, `makeDomain` lists nobody twice. */
  lemma {:induction false} KeepDistinct(order: seq<string>, all: map<string, Person>, cur: Person, ex: Option<set<Person?>>)
    requires forall k :: k in order ==> k in all
    requires forall i, j :: 0 <= i < j < |order| ==> order[i] != order[j]
    requires Injective(all)
    ensures Distinct(Keep(order, all, cur, ex))
  {
    if order != [] {
      var h := order[..|order| - 1];
      var last := order[|order| - 1];
      var v := all[last];
      assert forall i, j :: 0 <= i < j < |h| ==> h[i] == order[i] && h[j] == order[j];
      KeepDistinct(h, all, cur, ex);
      KeepMembers(h, all, cur, ex, v);
      assert last !in h by {
        assert forall i :: 0 <= i < |h| ==> h[i] == order[i];
      }
    }
  }

  /**
    Over a full enumeration of the map, the kept people are those of the map
    that are allowed, each once when no two names share a person.
  */
  lemma DomainMembers(order: seq<string>, all: map<string, Person>, cur: Person, ex: Option<set<Person?>>)
    requires Enumerates(order, all.Keys)
    ensures forall x :: x in Keep(order, all, cur, ex) <==> x in all.Values && Allowed(cur, ex, x)
    ensures Injective(all) ==> Distinct(Keep(order, all, cur, ex))
  {
    forall x ensures x in Keep(order, all, cur, ex) <==> x in all.Values && Allowed(cur, ex, x) {
      KeepMembers(order, all, cur, ex, x);
      if x in all.Values {
        var k :| k in all && all[k] == x;
        assert k in order;
      }
    }
    if Injective(all) {
      KeepDistinct(order, all, cur, ex);
    }
  }

  /**
    `makeDomain`: the people of `all` that `cur` may be matched with, in map
    order. `order` is the order the map was visited in.
  */
  method MakeDomain(cur: Person, all: map<string, Person>, bad: BadSet?) returns (ret: seq<Person>, ghost order: seq<string>)
    ensures Enumerates(order, all.Keys)
    ensures ret == Keep(order, all, cur, Excl(bad))
    ensures forall x :: x in ret <==> x in all.Values && Allowed(cur, Excl(bad), x)
    ensures Injective(all) ==> Distinct(ret)
  {
    var keys := RangeOrder(all);
    order := keys;
    ret := [];
    for i := 0 to |keys|
      invariant ret == Keep(keys[..i], all, cur, Excl(bad))
    {
      assert keys[..i + 1][..i] == keys[..i];
      var v := all[keys[i]];
      if bad == null {
        if v == cur {
          continue;
        }
      } else {
        var isIn := bad.IsIn(v);
        if isIn {
          continue;
        }
      }
      ret := ret + [v];
    }
    assert order[..|order|] == order;
    DomainMembers(order, all, cur, Excl(bad));
  }

  /** What `buildDomains` passes to `makeDomain` for `cur`: its compiled set, or nil if no group names it. */
  function ExclFor(g: seq<set<Person?>>, cur: Person): Option<set<Person?>> {
    if cur in Members(g) then Some(Forbidden(g, cur)) else None
  }

  /**
    Given the compiled exclusion sets, `makeDomain` keeps somebody exactly
    when it is not `cur` and shares no group with `cur`: nobody is their own
    candidate, in a group or not.
  */
  lemma ExclForMeaning(g: seq<set<Person?>>, cur: Person, x: Person)
    ensures Allowed(cur, ExclFor(g, cur), x) <==> x != cur && x !in Forbidden(g, cur)
  {
    if cur in Members(g) {
      SelfForbidden(g, cur);
    } else {
      ForbiddenOutside(g, cur);
    }
  }

  // ---------------------------------------------------------------------------
  // math/rand and shuffle
  // ---------------------------------------------------------------------------

  /**
    A random source as an abstract stream of values: the `k`-th draw is
    `source(k)`. How Go's generator computes them is not modelled.
  */
  class Rand {
    const source: nat -> nat
    var draws: nat

    constructor (source: nat -> nat)
      ensures this.source == source && draws == 0
    {
      this.source := source;
      draws := 0;
    }

    /** `Rand.Int31n(n)`: the next draw, brought into `[0, n)`; Go panics for `n <= 0`. */
    method Int31n(n: int) returns (r: int)
      requires n > 0
      modifies this
      ensures 0 <= r < n
      ensures r == source(old(draws)) % n && draws == old(draws) + 1
    {
      r := source(draws) % n;
      draws := draws + 1;
    }
  }

  /** `s` with the entries at `i` and `j` exchanged. */
  function Exchange(s: seq<Person>, i: int, j: int): (r: seq<Person>)
    requires 0 <= i < |s| && 0 <= j < |s|
    ensures |r| == |s|
  {
    s[i := s[j]][j := s[i]]
  }

  /**
    The swaps of `shuffle` from position `i` down to 1, taking draws from
    the `k`-th on: `s[i]` is exchanged with `s[j]` for a `j` in `[0, i]`.
  */
  function KnuthFrom(s: seq<Person>, i: int, source: nat -> nat, k: nat): (r: seq<Person>)
    requires i < |s|
    ensures |r| == |s|
    decreases i
  {
    if i <= 0 then s
    else
      KnuthFrom(Exchange(s, i, source(k) % (i + 1)), i - 1, source, k + 1)
  }

  /** The shuffle only reorders. */
  lemma {:induction false} KnuthPermutes(s: seq<Person>, i: int, source: nat -> nat, k: nat)
    requires i < |s|
    ensures multiset(KnuthFrom(s, i, source, k)) == multiset(s)
    decreases i
  {
    if i > 0 {
      var j := source(k) % (i + 1);
      var t := Exchange(s, i, j);
      KnuthPermutes(t, i - 1, source, k + 1);
      assert multiset(t) == multiset(s);
    }
  }

  /** How many draws `shuffle` takes for `n` people: one per position from the last down to 1. */
  function Draws(n: nat): nat {
    if n == 0 then 0 else n - 1
  }

  /** One round of the countdown of `shuffle`: a draw `j` in `[0, i]`, then `l[i]` and `l[j]` change places. */
  method ShuffleRound(l: array<Person>, r: Rand, i: int)
    requires 0 < i < l.Length
    modifies l, r
    ensures r.draws == old(r.draws) + 1
    ensures l[..] == Exchange(old(l[..]), i, r.source(old(r.draws)) % (i + 1))
  {
    var j := r.Int31n(i + 1);
    l[i], l[j] := l[j], l[i];
  }

  /** The countdown of `shuffle`: rounds from the last position down to 1. */
  method Countdown(l: array<Person>, r: Rand)
    modifies l, r
    ensures l[..] == KnuthFrom(old(l[..]), l.Length - 1, r.source, old(r.draws))
    ensures r.draws == old(r.draws) + Draws(l.Length)
  {
    var i := l.Length - 1;
    while i > 0
      invariant -1 <= i < l.Length
      invariant l.Length > 0 ==> 0 <= i
      invariant r.draws == old(r.draws) + (l.Length - 1 - i)
      invariant KnuthFrom(l[..], i, r.source, r.draws) == KnuthFrom(old(l[..]), l.Length - 1, r.source, old(r.draws))
    {
      ShuffleRound(l, r, i);
      i := i - 1;
    }
  }

  /**
    `shuffle`: sorts `l` by name, then runs the Fisher-Yates countdown. The
    result is the swaps applied to the sorted list `sorted`, one draw per
    position from the last down to 1.
  */
  method Shuffle(l: array<Person>, r: Rand) returns (ghost sorted: seq<Person>)
    modifies l, r
    ensures |sorted| == l.Length
    ensures SortedByName(sorted) && multiset(sorted) == multiset(old(l[..]))
    ensures l[..] == KnuthFrom(sorted, l.Length - 1, r.source, old(r.draws))
    ensures r.draws == old(r.draws) + Draws(l.Length)
  {
    SortByName(l);
    sorted := l[..];
    Countdown(l, r);
  }

  /**
    What `shuffle` produces depends only on which people it is given and on
    the draws, not on the order they come in: the lists it sorts two such
    inputs into are equal when no two people share a name, so the swaps
    produce equal results.
  */
  lemma ShuffleIgnoresOrder(sa: seq<Person>, sb: seq<Person>, source: nat -> nat, k: nat)
    requires SortedByName(sa) && SortedByName(sb)
    requires multiset(sa) == multiset(sb) && DistinctNames(sa)
    ensures |sa| == |sb|
    ensures KnuthFrom(sa, |sa| - 1, source, k) == KnuthFrom(sb, |sb| - 1, source, k)
  {
    SortedUnique(sa, sb);
  }

  /**
    `good` is what `shuffle` makes of a list of the people `d`, whatever
    order they come in: their order by name, then the countdown with draws
    from the `k`-th on.
  */
  ghost predicate Dealt(good: seq<Person>, d: multiset<Person>, source: nat -> nat, k: nat) {
    exists sorted :: DealtVia(sorted, good, d, source, k)
  }

  /** `good` is the countdown run on `sorted`, which lists the people `d` in name order. */
  ghost predicate DealtVia(older sorted: seq<Person>, good: seq<Person>, d: multiset<Person>, source: nat -> nat, k: nat) {
    && SortedByName(sorted)
    && multiset(sorted) == d
    && (forall i :: 0 <= i < |sorted| ==> sorted[i] in d)
    && good == KnuthFrom(sorted, |sorted| - 1, source, k)
  }

  /**
    The result of `shuffle` is fixed by the people it is given and the draws,
    when each of them is given once and no two share a name.
  */
  lemma DealtUnique(a: seq<Person>, b: seq<Person>, s: set<Person>, source: nat -> nat, k: nat)
    requires Dealt(a, multiset(s), source, k) && Dealt(b, multiset(s), source, k)
    requires forall x, y :: x in s && y in s && x.name == y.name ==> x == y
    ensures a == b
  {
    var sa: seq<Person> :| DealtVia(sa, a, multiset(s), source, k);
    var sb: seq<Person> :| DealtVia(sb, b, multiset(s), source, k);
    forall i, j | 0 <= i < j < |sa| ensures sa[i].name != sa[j].name {
      assert sa[i] in multiset(sa) && sa[j] in multiset(sa);
      if sa[i] == sa[j] {
        TwoCopies(sa, i, j);
        assert false;
      }
    }
    ShuffleIgnoresOrder(sa, sb, source, k);
  }

  // ---------------------------------------------------------------------------
  // buildDomains
  // ---------------------------------------------------------------------------

  /** The people of `m` in key order `order`. */
  function ValuesIn(order: seq<string>, m: map<string, Person>): (r: seq<Person>)
    requires forall k :: k in order ==> k in m
    ensures |r| == |order|
    ensures forall i :: 0 <= i < |order| ==> r[i] == m[order[i]]
  {
    if order == [] then [] else [m[order[0]]] + ValuesIn(order[1..], m)
  }

  /** Listing a map in a full enumeration lists each of its people, each once when no two names share one. */
  lemma ValuesInMembers(order: seq<string>, m: map<string, Person>)
    requires Enumerates(order, m.Keys)
    ensures forall x :: x in ValuesIn(order, m) <==> x in m.Values
    ensures Injective(m) ==> Distinct(ValuesIn(order, m))
  {
    var r := ValuesIn(order, m);
    forall x | x in m.Values ensures x in r {
      var k :| k in m && m[k] == x;
      var i :| 0 <= i < |order| && order[i] == k;
      assert r[i] == x;
    }
  }

  /**
    A candidate list `good` for `v`, as `buildDomains` leaves it: the people
    of the map who are not `v` and share no exclusion group with `v`, each
    listed once when no two names share a person.
  */
  ghost predicate GoodList(v: Person, good: seq<Person>, people: map<string, Person>, g: seq<set<Person?>>) {
    && (forall x :: x in good ==> x in people.Values && x != v && x !in Forbidden(g, v))
    && (forall x :: x in people.Values && x != v && x !in Forbidden(g, v) ==> x in good)
    && (Injective(people) ==> Distinct(good))
  }

  /** `v`'s own candidate list is right. */
  ghost predicate GoodFor(v: Person, people: map<string, Person>, g: seq<set<Person?>>)
    reads v
  {
    GoodList(v, v.good, people, g)
  }

  /** The people `v` may be matched with. */
  ghost function Candidates(v: Person, people: map<string, Person>, g: seq<set<Person?>>): set<Person> {
    set x | x in people.Values && x != v && x !in Forbidden(g, v)
  }

  /** A list holding each of the people `s` exactly once has their multiset. */
  lemma DistinctBag(l: seq<Person>, s: set<Person>)
    requires Distinct(l)
    requires forall x :: x in l <==> x in s
    ensures multiset(l) == multiset(s)
    ensures |l| == |s|
  {
    forall x ensures multiset(l)[x] == multiset(s)[x] {
      if x in s {
        DistinctCount(l, x);
        assert x in l;
      }
    }
    assert |l| == |multiset(l)|;
  }

  /** When no two names share a person, a right candidate list holds each candidate once. */
  lemma GoodListBag(v: Person, good: seq<Person>, people: map<string, Person>, g: seq<set<Person?>>)
    requires GoodList(v, good, people, g) && Injective(people)
    ensures multiset(good) == multiset(Candidates(v, people, g))
    ensures |good| == |Candidates(v, people, g)|
  {
    DistinctBag(good, Candidates(v, people, g));
  }

  /** The draws the last loop of `buildDomains` takes for the people `vs`, in order. */
  ghost function DrawsFor(vs: seq<Person>, people: map<string, Person>, g: seq<set<Person?>>): nat {
    if vs == [] then 0 else DrawsFor(vs[..|vs| - 1], people, g) + Draws(|Candidates(vs[|vs| - 1], people, g)|)
  }

  /** The candidate lists of `vs`, in order. */
  function Goods(vs: seq<Person>): (r: seq<seq<Person>>)
    reads vs
    ensures |r| == |vs|
    ensures forall k :: 0 <= k < |vs| ==> r[k] == vs[k].good
  {
    if vs == [] then [] else Goods(vs[..|vs| - 1]) + [vs[|vs| - 1].good]
  }

  /**
    `goods[k]` is the candidates of `vs[k]` as `shuffle` deals them, the draws
    starting where those of the people before `vs[k]` end.
  */
  ghost predicate DealtAt(vs: seq<Person>, goods: seq<seq<Person>>, k: nat, people: map<string, Person>, g: seq<set<Person?>>, source: nat -> nat, k0: nat)
    requires k < |vs| && k < |goods|
  {
    Dealt(goods[k], multiset(Candidates(vs[k], people, g)), source, k0 + DrawsFor(vs[..k], people, g))
  }

  /** `goods` are the candidates of each of `vs` as `shuffle` deals them, with draws from the `k0`-th on. */
  ghost predicate DealtFrom(vs: seq<Person>, goods: seq<seq<Person>>, people: map<string, Person>, g: seq<set<Person?>>, source: nat -> nat, k0: nat) {
    && |goods| == |vs|
    && forall k :: 0 <= k < |vs| ==> DealtAt(vs, goods, k, people, g, source, k0)
  }

  /** Dealing to one more person, with the draws where the others left them. */
  lemma DealtFromSnoc(vs: seq<Person>, goods: seq<seq<Person>>, v: Person, good: seq<Person>,
                      people: map<string, Person>, g: seq<set<Person?>>, source: nat -> nat, k0: nat, k: nat)
    requires DealtFrom(vs, goods, people, g, source, k0)
    requires k == k0 + DrawsFor(vs, people, g)
    requires Dealt(good, multiset(Candidates(v, people, g)), source, k)
    ensures DealtFrom(vs + [v], goods + [good], people, g, source, k0)
  {
    var ws := vs + [v];
    var hs := goods + [good];
    assert ws[..|vs|] == vs;
    forall k | 0 <= k < |ws| ensures DealtAt(ws, hs, k, people, g, source, k0) {
      if k < |vs| {
        assert DealtAt(vs, goods, k, people, g, source, k0);
        assert ws[k] == vs[k] && hs[k] == goods[k] && ws[..k] == vs[..k];
      }
    }
  }

  /** The map `compileBadSet` returned holds the groups `g` compiled. */
  ghost predicate Compiled(badMap: map<Person?, BadSet>, g: seq<set<Person?>>)
    reads badMap.Values
  {
    Compiles(Contents(badMap), g)
  }

  /** The compiled set found for `v` excludes exactly what the groups exclude. */
  lemma ExclOf(badMap: map<Person?, BadSet>, g: seq<set<Person?>>, v: Person)
    requires Compiles(Contents(badMap), g)
    ensures Excl(if v in badMap then badMap[v] else null) == ExclFor(g, v)
  {
    if v in badMap {
      assert Contents(badMap)[v] == badMap[v].pbad;
    }
  }

  /** Any reordering of the domain `makeDomain` builds from the compiled groups is a right candidate list. */
  lemma DomainGood(v: Person, people: map<string, Person>, g: seq<set<Person?>>, order: seq<string>, d: seq<Person>, good: seq<Person>)
    requires Enumerates(order, people.Keys)
    requires d == Keep(order, people, v, ExclFor(g, v))
    requires multiset(good) == multiset(d)
    ensures GoodList(v, good, people, g)
  {
    DomainMembers(order, people, v, ExclFor(g, v));
    forall x ensures x in good <==> x in people.Values && x != v && x !in Forbidden(g, v) {
      assert x in good <==> x in multiset(d);
      ExclForMeaning(g, v, x);
    }
    if Injective(people) {
      DistinctPermutation(d, good);
    }
  }

  /** A shuffled copy of `d`, as `buildDomains` hands the domain to `shuffle` in a fresh slice. */
  method Shuffled(d: seq<Person>, r: Rand) returns (good: seq<Person>)
    modifies r
    ensures multiset(good) == multiset(d)
    ensures Dealt(good, multiset(d), r.source, old(r.draws))
    ensures r.draws == old(r.draws) + Draws(|d|)
  {
    var a := new Person[|d|](k requires 0 <= k < |d| => d[k]);
    assert a[..] == d;
    Permute(a, r);
    good := a[..];
  }

  /** `shuffle` reorders the array it is given into the dealt order of its people. */
  method Permute(a: array<Person>, r: Rand)
    modifies a, r
    ensures multiset(a[..]) == multiset(old(a[..]))
    ensures Dealt(a[..], multiset(old(a[..])), r.source, old(r.draws))
    ensures r.draws == old(r.draws) + Draws(a.Length)
  {
    ghost var sorted := Shuffle(a, r);
    KnuthPermutes(sorted, a.Length - 1, r.source, old(r.draws));
    assert DealtVia(sorted, a[..], multiset(old(a[..])), r.source, old(r.draws));
  }

  /** One round of the last loop of `buildDomains`: `v.good` becomes its shuffled domain. */
  method AssignDomain(v: Person, people: map<string, Person>, badMap: map<Person?, BadSet>, r: Rand, ghost g: seq<set<Person?>>)
    requires Compiled(badMap, g)
    modifies v, r
    ensures GoodFor(v, people, g)
    ensures r.draws == old(r.draws) + Draws(|v.good|)
    ensures Injective(people) ==> |v.good| == |Candidates(v, people, g)|
    ensures Injective(people) ==> Dealt(v.good, multiset(Candidates(v, people, g)), r.source, old(r.draws))
  {
    var bad: BadSet? := if v in badMap then badMap[v] else null;
    ExclOf(badMap, g, v);
    var d, order := MakeDomain(v, people, bad);
    var good := Shuffled(d, r);
    DomainGood(v, people, g, order, d, good);
    assert |good| == |multiset(good)| == |multiset(d)| == |d|;
    if Injective(people) {
      GoodListBag(v, good, people, g);
    }
    v.good := good;
  }

  /**
    The candidate lists dealt in turn to the people `vs` are fixed by the
    people, the groups and the draws, when no two people of the party share a
    name.
  */
  lemma DealtFromUnique(vs: seq<Person>, goods1: seq<seq<Person>>, goods2: seq<seq<Person>>, people: map<string, Person>,
                        g: seq<set<Person?>>, source: nat -> nat, k0: nat)
    requires DealtFrom(vs, goods1, people, g, source, k0) && DealtFrom(vs, goods2, people, g, source, k0)
    requires forall x, y :: x in people.Values && y in people.Values && x.name == y.name ==> x == y
    ensures goods1 == goods2
  {
    forall k | 0 <= k < |vs| ensures goods1[k] == goods2[k] {
      assert DealtAt(vs, goods1, k, people, g, source, k0) && DealtAt(vs, goods2, k, people, g, source, k0);
      DealtUnique(goods1[k], goods2[k], Candidates(vs[k], people, g), source, k0 + DrawsFor(vs[..k], people, g));
    }
  }

  /**
    The state of the last loop of `buildDomains` over the people `vs`, whose
    candidate lists are `cur`, after `i` rounds that began at draw `k0`: the
    first `i` people have their candidate lists, dealt as `goods` says, and
    `draws` draws are spent.
  */
  ghost predicate AssignedTo(vs: seq<Person>, cur: seq<seq<Person>>, i: nat, goods: seq<seq<Person>>,
                             people: map<string, Person>, g: seq<set<Person?>>, source: nat -> nat, k0: nat, draws: nat)
  {
    && i <= |vs| && |cur| == |vs| && |goods| == i
    && (forall k :: 0 <= k < i ==> GoodList(vs[k], cur[k], people, g))
    && (Injective(people) ==> draws == k0 + DrawsFor(vs[..i], people, g))
    && (Injective(people) ==> DealtFrom(vs[..i], goods, people, g, source, k0))
    && (Distinct(vs) ==> forall k :: 0 <= k < i ==> cur[k] == goods[k])
  }

  /** `AssignedTo` for the candidate lists the people `vs` hold. */
  ghost predicate Assigned(vs: seq<Person>, i: nat, goods: seq<seq<Person>>, people: map<string, Person>,
                           g: seq<set<Person?>>, source: nat -> nat, k0: nat, draws: nat)
    reads vs
  {
    AssignedTo(vs, Goods(vs), i, goods, people, g, source, k0, draws)
  }

  /**
    One round of the last loop of `buildDomains`: giving `vs[i]` the list
    `good`, dealt from its candidates at the current draw, keeps the loop's state.
  */
  lemma AssignedStep(vs: seq<Person>, cur: seq<seq<Person>>, next: seq<seq<Person>>, i: nat, goods: seq<seq<Person>>,
                     good: seq<Person>, people: map<string, Person>, g: seq<set<Person?>>, source: nat -> nat, k0: nat,
                     draws: nat, draws': nat)
    requires i < |vs| && AssignedTo(vs, cur, i, goods, people, g, source, k0, draws)
    requires |next| == |vs| && forall k :: 0 <= k < |vs| ==> next[k] == if vs[k] == vs[i] then good else cur[k]
    requires GoodList(vs[i], good, people, g) && draws' == draws + Draws(|good|)
    requires Injective(people) ==> |good| == |Candidates(vs[i], people, g)|
    requires Injective(people) ==> Dealt(good, multiset(Candidates(vs[i], people, g)), source, draws)
    ensures AssignedTo(vs, next, i + 1, goods + [good], people, g, source, k0, draws')
  {
    assert vs[..i + 1] == vs[..i] + [vs[i]];
    if Injective(people) {
      DealtFromSnoc(vs[..i], goods, vs[i], good, people, g, source, k0, draws);
    }
    if Distinct(vs) {
      forall k | 0 <= k < i ensures next[k] == cur[k] {
        assert vs[k] != vs[i];
      }
    }
  }

  /** When the last loop of `buildDomains` ends, every one of `vs` has its candidate list, dealt in turn. */
  lemma AssignedDone(vs: seq<Person>, cur: seq<seq<Person>>, goods: seq<seq<Person>>, people: map<string, Person>,
                     g: seq<set<Person?>>, source: nat -> nat, k0: nat, draws: nat)
    requires AssignedTo(vs, cur, |vs|, goods, people, g, source, k0, draws)
    ensures forall k :: 0 <= k < |vs| ==> GoodList(vs[k], cur[k], people, g)
    ensures Injective(people) ==> draws == k0 + DrawsFor(vs, people, g)
    ensures Injective(people) && Distinct(vs) ==> DealtFrom(vs, cur, people, g, source, k0)
  {
    assert vs[..|vs|] == vs;
    if Distinct(vs) {
      assert cur == goods;
    }
  }

  /**
    The `i`-th round of the last loop of `buildDomains` over the people `vs`,
    which began at draw `k0`: the draws go on where the earlier rounds left them.
  */
  method AssignNext(vs: seq<Person>, i: nat, people: map<string, Person>, badMap: map<Person?, BadSet>, r: Rand,
                    ghost g: seq<set<Person?>>, ghost goods: seq<seq<Person>>, ghost k0: nat)
    requires i < |vs| && Compiled(badMap, g)
    requires Assigned(vs, i, goods, people, g, r.source, k0, r.draws)
    modifies vs[i], r
    ensures Compiled(badMap, g)
    ensures Assigned(vs, i + 1, goods + [vs[i].good], people, g, r.source, k0, r.draws)
  {
    ghost var cur := Goods(vs);
    ghost var before := r.draws;
    AssignDomain(vs[i], people, badMap, r, g);
    ghost var next := Goods(vs);
    forall k | 0 <= k < |vs| ensures next[k] == if vs[k] == vs[i] then vs[i].good else cur[k] {
    }
    AssignedStep(vs, cur, next, i, goods, vs[i].good, people, g, r.source, k0, before, r.draws);
  }

  /** The last loop of `buildDomains`, over the listed people `vs`: every one of them gets its domain. */
  method AssignDomains(vs: seq<Person>, people: map<string, Person>, badMap: map<Person?, BadSet>, r: Rand, ghost g: seq<set<Person?>>)
    requires Compiled(badMap, g)
    requires forall k :: 0 <= k < |vs| ==> vs[k] in people.Values
    modifies people.Values, r
    ensures forall k :: 0 <= k < |vs| ==> GoodFor(vs[k], people, g)
    ensures Injective(people) ==> r.draws == old(r.draws) + DrawsFor(vs, people, g)
    ensures Injective(people) && Distinct(vs) ==> DealtFrom(vs, Goods(vs), people, g, r.source, old(r.draws))
  {
    ghost var goods: seq<seq<Person>> := [];
    for i := 0 to |vs|
      invariant Compiled(badMap, g)
      invariant Assigned(vs, i, goods, people, g, r.source, old(r.draws), r.draws)
    {
      AssignNext(vs, i, people, badMap, r, g, goods, old(r.draws));
      goods := goods + [vs[i].good];
    }
    AssignedDone(vs, Goods(vs), goods, people, g, r.source, old(r.draws), r.draws);
  }

  /** Reordering a list keeps who is on it, and keeps it free of repeats. */
  lemma PermutationKeeps(a: seq<Person>, b: seq<Person>)
    requires multiset(a) == multiset(b)
    ensures forall x :: x in a <==> x in b
    ensures Distinct(a) ==> Distinct(b)
  {
    forall x ensures x in a <==> x in b {
      assert x in a <==> x in multiset(a);
    }
    if Distinct(a) {
      DistinctPermutation(a, b);
    }
  }

  /** The people of the map, in map order, as a new array. */
  method Gather(people: map<string, Person>) returns (ret: array<Person>)
    ensures fresh(ret)
    ensures ret.Length == |people|
    ensures forall x :: x in ret[..] <==> x in people.Values
    ensures Injective(people) ==> Distinct(ret[..])
  {
    var keys := RangeOrder(people);
    ret := new Person[|keys|](k requires 0 <= k < |keys| && keys[k] in people => people[keys[k]]);
    assert ret[..] == ValuesIn(keys, people);
    ValuesInMembers(keys, people);
  }

  /**
    The first half of `buildDomains`: the people of the map, in map order,
    sorted by name.
  */
  method ListPeople(people: map<string, Person>) returns (ret: array<Person>)
    ensures fresh(ret)
    ensures SortedByName(ret[..])
    ensures ret.Length == |people|
    ensures forall x :: x in ret[..] <==> x in people.Values
    ensures Injective(people) ==> Distinct(ret[..])
  {
    ret := Gather(people);
    ghost var listed := ret[..];
    SortByName(ret);
    PermutationKeeps(listed, ret[..]);
  }

  /**
    `buildDomains`: lists the people of the map sorted by name and gives each
    its shuffled candidate list.
  */
  method BuildDomains(people: map<string, Person>, bad: seq<BadSet>, r: Rand) returns (ret: array<Person>)
    modifies people.Values, r
    ensures fresh(ret)
    ensures SortedByName(ret[..])
    ensures ret.Length == |people|
    ensures forall x :: x in ret[..] <==> x in people.Values
    ensures Injective(people) ==> Distinct(ret[..])
    ensures forall k :: 0 <= k < ret.Length ==> GoodFor(ret[k], people, old(Sets(bad)))
    ensures Injective(people) ==> r.draws == old(r.draws) + DrawsFor(ret[..], people, old(Sets(bad)))
    ensures Injective(people) ==> DealtFrom(ret[..], Goods(ret[..]), people, old(Sets(bad)), r.source, old(r.draws))
  {
    ghost var g := Sets(bad);
    var badMap := CompileBadSet(bad);
    ret := ListPeople(people);
    AssignDomains(ret[..], people, badMap, r, g);
  }
}
