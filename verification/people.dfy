/**
  Participants (`Person`), their name order (`People`) and exclusion sets
  (`BadSet`) of secretsanta.go.
*/
module People {
  import opened GoStrings

  /**
    A participant. `name` and `email` are fixed when the people section is
    read; `good`, the ordered candidate list, is assigned once by the domain
    builder and only read afterwards.
  */
  class Person {
    const name: string
    const email: string
    var good: seq<Person>

    constructor (name: string, email: string)
      ensures this.name == name && this.email == email && good == []
    {
      this.name := name;
      this.email := email;
      good := [];
    }
  }

  // ---------------------------------------------------------------------------
  // People: the sort.Interface over []*Person
  // ---------------------------------------------------------------------------

  /** `People.Less`: `p` sorts before `q` when its name is smaller. */
  predicate Less(p: Person, q: Person) {
    StrLess(p.name, q.name)
  }

  /** `p` may come before `q` in a sorted list. */
  predicate Le(p: Person, q: Person) {
    !Less(q, p)
  }

  predicate SortedByName(s: seq<Person>) {
    forall i, j :: 0 <= i < j < |s| ==> Le(s[i], s[j])
  }

  lemma LeTransitive(p: Person, q: Person, r: Person)
    requires Le(p, q) && Le(q, r)
    ensures Le(p, r)
  {
    if p.name != q.name && q.name != r.name {
      StrLessTotal(p.name, q.name);
      StrLessTotal(q.name, r.name);
      StrLessTransitive(p.name, q.name, r.name);
      StrLessAsymmetric(p.name, r.name);
    }
  }

  lemma LeTotal(p: Person, q: Person)
    ensures Le(p, q) || Le(q, p)
  {
    if p.name == q.name {
      StrLessIrreflexive(p.name);
    } else {
      StrLessTotal(p.name, q.name);
      if Less(p, q) { StrLessAsymmetric(p.name, q.name); }
    }
  }

  /** Two people who may each come before the other have the same name. */
  lemma LeAntisymmetric(p: Person, q: Person)
    requires Le(p, q) && Le(q, p)
    ensures p.name == q.name
  {
    if p.name != q.name {
      StrLessTotal(p.name, q.name);
    }
  }

  /** No two entries share a name. */
  predicate DistinctNames(s: seq<Person>) {
    forall i, j :: 0 <= i < j < |s| ==> s[i].name != s[j].name
  }

  /** Two sorted lists of the same people with distinct names start alike. */
  lemma SortedHeads(a: seq<Person>, b: seq<Person>)
    requires SortedByName(a) && SortedByName(b) && a != [] && b != []
    requires multiset(a) == multiset(b) && DistinctNames(a)
    ensures a[0] == b[0]
  {
    assert a[0] in multiset(b) && b[0] in multiset(a);
    var k :| 0 <= k < |b| && b[k] == a[0];
    var m :| 0 <= m < |a| && a[m] == b[0];
    if k > 0 && m > 0 {
      assert Le(b[0], b[k]) && Le(a[0], a[m]);
      LeAntisymmetric(a[0], b[0]);
      assert false;
    }
  }

  /** Dropping a common first element keeps two lists' contents equal. */
  lemma MultisetTail<T>(a: seq<T>, b: seq<T>)
    requires a != [] && b != [] && a[0] == b[0] && multiset(a) == multiset(b)
    ensures multiset(a[1..]) == multiset(b[1..])
  {
    assert a == [a[0]] + a[1..] && b == [b[0]] + b[1..];
    assert multiset(a) == multiset{a[0]} + multiset(a[1..]);
    assert multiset(b) == multiset{b[0]} + multiset(b[1..]);
    assert multiset(a[1..]) == multiset(a) - multiset{a[0]};
  }

  /** The rest of a sorted list with distinct names is one too. */
  lemma SortedTail(a: seq<Person>)
    requires a != [] && SortedByName(a)
    ensures SortedByName(a[1..])
    ensures DistinctNames(a) ==> DistinctNames(a[1..])
  {
    assert forall i :: 0 <= i < |a| - 1 ==> a[1..][i] == a[i + 1];
  }

  /**
    With distinct names there is only one order by name: two sorted lists of
    the same people are the same list.
  */
  lemma {:induction false} SortedUnique(a: seq<Person>, b: seq<Person>)
    requires SortedByName(a) && SortedByName(b)
    requires multiset(a) == multiset(b) && DistinctNames(a)
    ensures a == b
    decreases |a|
  {
    if a == [] {
      assert |b| == |multiset(b)| == 0;
    } else {
      assert b != [] by { assert a[0] in multiset(b); }
      SortedHeads(a, b);
      MultisetTail(a, b);
      SortedTail(a);
      SortedTail(b);
      SortedUnique(a[1..], b[1..]);
    }
  }

  /** `People.Swap`: exchange two entries of the slice in place. */
  method Swap(a: array<Person>, i: int, j: int)
    requires 0 <= i < a.Length && 0 <= j < a.Length
    modifies a
    ensures a[..] == old(a[..])[i := old(a[j])][j := old(a[i])]
    ensures multiset(a[..]) == multiset(old(a[..]))
  {
    a[i], a[j] := a[j], a[i];
  }

  /**
    `sort.Sort(People(a))`: orders the slice by name in place, as a
    permutation of its contents. The library's algorithm is not the point;
    this is an insertion sort driven by `Less` and `Swap`.
  */
  method SortByName(a: array<Person>)
    modifies a
    ensures SortedByName(a[..])
    ensures multiset(a[..]) == multiset(old(a[..]))
  {
    var i := 0;
    while i < a.Length
      invariant 0 <= i <= a.Length
      invariant forall x, y :: 0 <= x < y < i ==> Le(a[x], a[y])
      invariant multiset(a[..]) == multiset(old(a[..]))
    {
      InsertLast(a, i);
      i := i + 1;
    }
  }

  /** One round of insertion sort: sinks `a[i]` into the sorted prefix `a[..i]`. */
  method InsertLast(a: array<Person>, i: int)
    requires 0 <= i < a.Length
    requires forall x, y :: 0 <= x < y < i ==> Le(a[x], a[y])
    modifies a
    ensures forall x, y :: 0 <= x < y <= i ==> Le(a[x], a[y])
    ensures multiset(a[..]) == multiset(old(a[..]))
    ensures forall k :: i < k < a.Length ==> a[k] == old(a[k])
  {
    var j := i;
    while j > 0 && Less(a[j], a[j - 1])
      invariant 0 <= j <= i
      invariant forall x, y :: 0 <= x < y <= i && x != j && y != j ==> Le(a[x], a[y])
      invariant forall y :: j < y <= i ==> Le(a[j], a[y])
      invariant multiset(a[..]) == multiset(old(a[..]))
      invariant forall k :: i < k < a.Length ==> a[k] == old(a[k])
    {
      StrLessAsymmetric(a[j].name, a[j - 1].name);
      Swap(a, j, j - 1);
      j := j - 1;
    }
    if j > 0 {
      LeTotal(a[j], a[j - 1]);
      forall x | 0 <= x < j ensures Le(a[x], a[j]) {
        if x < j - 1 { LeTransitive(a[x], a[j - 1], a[j]); }
      }
    }
  }

  // ---------------------------------------------------------------------------
  // BadSet
  // ---------------------------------------------------------------------------

  /**
    An exclusion set: people who must not be matched to one another. A name
    that does not resolve to a person puts Go's nil pointer in the set, so
    members are `Person?`.
  */
  class BadSet {
    var pbad: set<Person?>

    /** `NewBadSet`. */
    constructor ()
      ensures pbad == {}
    {
      pbad := {};
    }

    /** `BadSet.AddPerson`. */
    method AddPerson(p: Person?)
      modifies this
      ensures pbad == old(pbad) + {p}
    {
      pbad := pbad + {p};
    }

    /** `BadSet.IsIn`. */
    method IsIn(p: Person?) returns (b: bool)
      ensures b <==> p in pbad
    {
      b := p in pbad;
    }

    /** `BadSet.AddAll`: adds every member of `o`, one at a time; `o` may be this very set. */
    method AddAll(o: BadSet)
      modifies this
      ensures pbad == old(pbad) + old(o.pbad)
    {
      var todo := o.pbad;
      while todo != {}
        invariant todo <= old(o.pbad)
        invariant pbad == old(pbad) + (old(o.pbad) - todo)
        decreases todo
      {
        var p :| p in todo;
        pbad := pbad + {p};
        todo := todo - {p};
      }
    }
  }
}
