/**
 * Stage four of the hierarchy engine (src/main.rs:121-129): list every person, sort the list
 * stably by report count, ascending, then reverse it. The result runs from the largest count to
 * the smallest. People with equal counts come out in the reverse of the map's iteration order.
 */
module Ranking {
  import opened Org
  import Forest

  /** The people of the map, listed in iteration order. */
  function Listed(people: People, order: seq<nat>): seq<Person>
    requires forall i :: 0 <= i < |order| ==> order[i] in people
    decreases |order|
  {
    if order == [] then []
    else Listed(people, order[..|order| - 1]) + [people[order[|order| - 1]].person]
  }

  /** The people of s whose report count is n, in the order of s. */
  function Tier(s: seq<Person>, n: nat): seq<Person>
    decreases |s|
  {
    if s == [] then []
    else Tier(s[..|s| - 1], n) + (if s[|s| - 1].recursiveReports == n then [s[|s| - 1]] else [])
  }

  ghost predicate Ascending(s: seq<Person>) {
    forall i, j :: 0 <= i < j < |s| ==> s[i].recursiveReports <= s[j].recursiveReports
  }

  ghost predicate Descending(s: seq<Person>) {
    forall i, j :: 0 <= i < j < |s| ==> s[i].recursiveReports >= s[j].recursiveReports
  }

  /** s with x inserted after every element, from the back, whose count exceeds x's. */
  function Insert(s: seq<Person>, x: Person): seq<Person>
    decreases |s|
  {
    if s == [] || s[|s| - 1].recursiveReports <= x.recursiveReports then s + [x]
    else Insert(s[..|s| - 1], x) + [s[|s| - 1]]
  }

  /** Stable insertion sort by report count, ascending. */
  function Sort(s: seq<Person>): seq<Person>
    decreases |s|
  {
    if s == [] then [] else Insert(Sort(s[..|s| - 1]), s[|s| - 1])
  }

  function Reversed<T>(s: seq<T>): seq<T>
    decreases |s|
  {
    if s == [] then [] else [s[|s| - 1]] + Reversed(s[..|s| - 1])
  }

  // ---------------------------------------------------------------------------
  // Tiers

  lemma {:induction false} TierAppend(a: seq<Person>, b: seq<Person>, n: nat)
    ensures Tier(a + b, n) == Tier(a, n) + Tier(b, n)
    decreases |b|
  {
    if b == [] {
      assert a + b == a;
    } else {
      assert (a + b)[..|a + b| - 1] == a + b[..|b| - 1];
      assert (a + b)[|a + b| - 1] == b[|b| - 1];
      TierAppend(a, b[..|b| - 1], n);
    }
  }

  /** A tier holds exactly the elements of s with that count. */
  lemma {:induction false} TierMembers(s: seq<Person>, n: nat)
    ensures forall x :: x in Tier(s, n) <==> x in s && x.recursiveReports == n
    decreases |s|
  {
    if s != [] {
      TierMembers(s[..|s| - 1], n);
      assert s == s[..|s| - 1] + [s[|s| - 1]];
    }
  }

  // ---------------------------------------------------------------------------
  // Insertion

  /** Inserting x adds x to the list and nothing else. */
  lemma {:induction false} InsertPerm(s: seq<Person>, x: Person)
    ensures multiset(Insert(s, x)) == multiset(s) + multiset{x}
    decreases |s|
  {
    if !(s == [] || s[|s| - 1].recursiveReports <= x.recursiveReports) {
      InsertPerm(s[..|s| - 1], x);
      assert s == s[..|s| - 1] + [s[|s| - 1]];
    }
  }

  /** A list that ascends up to a last element at least as large as the others ascends. */
  lemma AscendingSnoc(s: seq<Person>, y: Person)
    requires Ascending(s) && forall x :: x in s ==> x.recursiveReports <= y.recursiveReports
    ensures Ascending(s + [y])
  {
    var t := s + [y];
    forall i, j | 0 <= i < j < |t|
      ensures t[i].recursiveReports <= t[j].recursiveReports
    {
      if j == |s| {
        assert t[i] == s[i];
      }
    }
  }

  /** Inserting into an ascending list keeps it ascending. */
  lemma {:induction false} InsertAscending(s: seq<Person>, x: Person)
    requires Ascending(s)
    ensures Ascending(Insert(s, x))
    decreases |s|
  {
    if s == [] || s[|s| - 1].recursiveReports <= x.recursiveReports {
      AscendingSnoc(s, x);
    } else {
      var t, y := s[..|s| - 1], s[|s| - 1];
      InsertAscending(t, x);
      InsertPerm(t, x);
      forall z | z in Insert(t, x)
        ensures z.recursiveReports <= y.recursiveReports
      {
        assert z in multiset(Insert(t, x));
        if z != x {
          var i :| 0 <= i < |t| && t[i] == z;
          assert s[i] == z;
        }
      }
      AscendingSnoc(Insert(t, x), y);
    }
  }

  /** Inserting x adds it at the end of its own tier and leaves every other tier alone. */
  lemma {:induction false} InsertTier(s: seq<Person>, x: Person, n: nat)
    ensures Tier(Insert(s, x), n) == Tier(s, n) + (if x.recursiveReports == n then [x] else [])
    decreases |s|
  {
    if s == [] || s[|s| - 1].recursiveReports <= x.recursiveReports {
      TierAppend(s, [x], n);
    } else {
      var t, y := s[..|s| - 1], s[|s| - 1];
      InsertTier(t, x, n);
      TierAppend(Insert(t, x), [y], n);
    }
  }

  // ---------------------------------------------------------------------------
  // Sorting

  /** The sort ascends, keeps every element, and keeps the order within each tier. */
  lemma {:induction false} SortFacts(s: seq<Person>)
    ensures Ascending(Sort(s))
    ensures multiset(Sort(s)) == multiset(s)
    ensures forall n :: Tier(Sort(s), n) == Tier(s, n)
    decreases |s|
  {
    if s != [] {
      var t, x := s[..|s| - 1], s[|s| - 1];
      SortFacts(t);
      InsertAscending(Sort(t), x);
      InsertPerm(Sort(t), x);
      assert s == t + [x];
      forall n
        ensures Tier(Sort(s), n) == Tier(s, n)
      {
        InsertTier(Sort(t), x, n);
      }
    }
  }

  /** A nonempty list's last element ends its own tier. */
  lemma TierLast(s: seq<Person>)
    requires s != []
    ensures Tier(s, s[|s| - 1].recursiveReports) != []
    ensures Tier(s, s[|s| - 1].recursiveReports)[|Tier(s, s[|s| - 1].recursiveReports)| - 1] == s[|s| - 1]
  {
  }

  /** In an ascending list, an element of tier n bounds n by the last element's count. */
  lemma TierBelowLast(s: seq<Person>, n: nat)
    requires Ascending(s) && Tier(s, n) != []
    ensures s != [] && n <= s[|s| - 1].recursiveReports
  {
    TierMembers(s, n);
    var z := Tier(s, n)[0];
    assert z in Tier(s, n);
    var i :| 0 <= i < |s| && s[i] == z;
  }

  /**
   * Two ascending lists with the same tiers are equal. So any stable ascending sort gives the
   * same result as Sort.
   */
  lemma {:induction false} SortUnique(a: seq<Person>, b: seq<Person>)
    requires Ascending(a) && Ascending(b)
    requires forall n :: Tier(a, n) == Tier(b, n)
    ensures a == b
    decreases |a|
  {
    if a == [] && b != [] {
      TierLast(b);
    } else if a != [] && b == [] {
      TierLast(a);
    } else if a != [] {
      var a', x := a[..|a| - 1], a[|a| - 1];
      var b', y := b[..|b| - 1], b[|b| - 1];
      TierLast(a);
      TierLast(b);
      TierBelowLast(b, x.recursiveReports);
      TierBelowLast(a, y.recursiveReports);
      var k := x.recursiveReports;
      assert y.recursiveReports == k;
      assert x == y;
      forall n
        ensures Tier(a', n) == Tier(b', n)
      {
        var ta, tb := Tier(a', n), Tier(b', n);
        assert Tier(a, n) == ta + (if n == k then [x] else []);
        assert Tier(b, n) == tb + (if n == k then [y] else []);
        assert (ta + (if n == k then [x] else []))[..|ta|] == ta;
        assert (tb + (if n == k then [y] else []))[..|tb|] == tb;
      }
      assert Ascending(a') && Ascending(b');
      SortUnique(a', b');
      assert a == a' + [x] && b == b' + [y];
    }
  }

  // ---------------------------------------------------------------------------
  // Reversal

  lemma {:induction false} ReversedFacts<T>(s: seq<T>)
    ensures |Reversed(s)| == |s|
    ensures forall i :: 0 <= i < |s| ==> Reversed(s)[i] == s[|s| - 1 - i]
    ensures multiset(Reversed(s)) == multiset(s)
    decreases |s|
  {
    if s != [] {
      ReversedFacts(s[..|s| - 1]);
      assert s == s[..|s| - 1] + [s[|s| - 1]];
    }
  }

  /** Reversing a list reverses each of its tiers. */
  lemma {:induction false} ReversedTier(s: seq<Person>, n: nat)
    ensures Tier(Reversed(s), n) == Reversed(Tier(s, n))
    decreases |s|
  {
    if s != [] {
      var t, x := s[..|s| - 1], s[|s| - 1];
      var u := if x.recursiveReports == n then [x] else [];
      ReversedTier(t, n);
      assert Reversed(s) == [x] + Reversed(t);
      TierAppend([x], Reversed(t), n);
      assert [x][..0] == [];
      assert Tier([x], n) == u;
      assert Tier(s, n) == Tier(t, n) + u;
      if u != [] {
        var w := Tier(t, n) + u;
        assert w[..|w| - 1] == Tier(t, n);
        assert Reversed(w) == [x] + Reversed(Tier(t, n));
      } else {
        assert Tier(t, n) + u == Tier(t, n);
      }
    }
  }

  /** The reverse of an ascending list descends. */
  lemma ReversedDescends(s: seq<Person>)
    requires Ascending(s)
    ensures Descending(Reversed(s))
  {
    ReversedFacts(s);
  }

  // ---------------------------------------------------------------------------
  // The ranking stage

  /**
   * `sort_by_key` on the report count (src/main.rs:122): the stable ascending sort, keeping
   * every element and the order of the elements within each tier.
   */
  method SortByCount(v: seq<Person>) returns (sorted: seq<Person>)
    ensures sorted == Sort(v)
    ensures Ascending(sorted) && multiset(sorted) == multiset(v)
    ensures forall n :: Tier(sorted, n) == Tier(v, n)
  {
    sorted := [];
    for i := 0 to |v|
      invariant sorted == Sort(v[..i])
    {
      assert v[..i + 1][..i] == v[..i];
      sorted := Insert(sorted, v[i]);
    }
    assert v[..|v|] == v;
    SortFacts(v);
  }

  /** `reverse` (src/main.rs:123): the element at i moves to the mirrored index. */
  method Reverse(v: seq<Person>) returns (r: seq<Person>)
    ensures r == Reversed(v)
    ensures |r| == |v| && forall i :: 0 <= i < |v| ==> r[i] == v[|v| - 1 - i]
  {
    r := [];
    for i := 0 to |v|
      invariant r == Reversed(v[..i])
    {
      assert v[..i + 1][..i] == v[..i];
      r := [v[i]] + r;
    }
    assert v[..|v|] == v;
    ReversedFacts(v);
  }

  /**
   * The ranking stage (src/main.rs:121-129): list everyone in iteration order, sort by report
   * count ascending, reverse. The result holds every person exactly once, from the largest
   * count to the smallest. People with equal counts appear in the reverse of the iteration order.
   */
  method Rank(people: People, order: seq<nat>) returns (ranked: seq<Person>)
    requires Forest.Distinct(order) && forall k :: k in people <==> k in order
    ensures ranked == Reversed(Sort(Listed(people, order)))
    ensures |ranked| == |people| && multiset(ranked) == multiset(Listed(people, order))
    ensures Descending(ranked)
    ensures forall n :: Tier(ranked, n) == Reversed(Tier(Listed(people, order), n))
  {
    var all: seq<Person> := [];
    for i := 0 to |order|
      invariant all == Listed(people, order[..i])
    {
      assert order[..i + 1][..i] == order[..i];
      all := all + [people[order[i]].person];
    }
    assert order[..|order|] == order;
    var sorted := SortByCount(all);
    ranked := Reverse(sorted);
    RankedList(all);
    ListedSize(people, order);
  }

  /**
   * The ranking of a list holds its elements, from the largest count to the smallest, and
   * elements with equal counts appear in the reverse of their order in the list.
   */
  lemma RankedList(s: seq<Person>)
    ensures |Reversed(Sort(s))| == |s| && multiset(Reversed(Sort(s))) == multiset(s)
    ensures Descending(Reversed(Sort(s)))
    ensures forall n :: Tier(Reversed(Sort(s)), n) == Reversed(Tier(s, n))
  {
    SortFacts(s);
    ReversedFacts(Sort(s));
    ReversedDescends(Sort(s));
    forall n
      ensures Tier(Reversed(Sort(s)), n) == Reversed(Tier(s, n))
    {
      ReversedTier(Sort(s), n);
    }
    assert |multiset(Sort(s))| == |Sort(s)| && |multiset(s)| == |s|;
  }

  /** Listing a map in an iteration order that names every key once lists as many people as the map holds. */
  lemma ListedSize(people: People, order: seq<nat>)
    requires Forest.Distinct(order) && forall k :: k in people <==> k in order
    ensures |Listed(people, order)| == |people|
  {
    ListedLength(people, order);
    Forest.DistinctSize(order);
    assert Forest.Elems(order) == people.Keys;
  }

  lemma {:induction false} ListedLength(people: People, order: seq<nat>)
    requires forall i :: 0 <= i < |order| ==> order[i] in people
    ensures |Listed(people, order)| == |order|
    decreases |order|
  {
    if order != [] {
      ListedLength(people, order[..|order| - 1]);
    }
  }
}
