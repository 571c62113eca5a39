/**
 * Stage two of the hierarchy engine (src/main.rs:63-98): walk up the manager chain from every
 * employee not yet seen, appending each newly seen employee to its manager's report list, and
 * stop with an error when a walk comes back to an employee of its own chain.
 */
module Linking {
  import opened Wrappers
  import opened Org
  import opened Forest

  /** The ids of s whose manager in g is m, in the order of s. */
  ghost function ReportsIn(g: Chart, s: seq<nat>, m: nat): seq<nat>
    decreases |s|
  {
    if s == [] then []
    else
      var t, x := s[..|s| - 1], s[|s| - 1];
      ReportsIn(g, t, m) + (if x in g && g[x] == Some(m) then [x] else [])
  }

  /** ReportsIn keeps exactly the reports of m, and keeps a duplicate-free sequence duplicate-free. */
  lemma {:induction false} ReportsInMembers(g: Chart, s: seq<nat>, m: nat)
    ensures forall x :: x in ReportsIn(g, s, m) <==> x in s && x in g && g[x] == Some(m)
    ensures Distinct(s) ==> Distinct(ReportsIn(g, s, m))
    decreases |s|
  {
    if s != [] {
      var t, x := s[..|s| - 1], s[|s| - 1];
      assert s == t + [x];
      assert Distinct(s) ==> Distinct(t) && x !in t;
      ReportsInMembers(g, t, m);
    }
  }

  lemma ReportsInSnoc(g: Chart, s: seq<nat>, x: nat, m: nat)
    ensures ReportsIn(g, s + [x], m) == ReportsIn(g, s, m) + (if x in g && g[x] == Some(m) then [x] else [])
  {
    assert (s + [x])[..|s|] == s;
  }

  /**
   * The map after appending x to its manager's report list: the effect of seeing x during a walk.
   * A manager id that names nobody in the map leaves the map unchanged.
   */
  function AppendTo(p: People, x: nat): People {
    if x in p && p[x].person.managerId.Some? && p[x].person.managerId.value in p then
      var m := p[x].person.managerId.value;
      p[m := p[m].(reports := p[m].reports + [x])]
    else p
  }

  /** The map after appending every id of s, in the order of s, to its manager's report list. */
  ghost function Appended(p: People, s: seq<nat>): People
    decreases |s|
  {
    if s == [] then p else AppendTo(Appended(p, s[..|s| - 1]), s[|s| - 1])
  }

  lemma AppendedSnoc(p: People, s: seq<nat>, x: nat)
    ensures Appended(p, s + [x]) == AppendTo(Appended(p, s), x)
  {
    assert (s + [x])[..|s|] == s;
  }

  /** Appending reports changes neither the ids nor the people. */
  lemma {:induction false} AppendedKeeps(p: People, s: seq<nat>)
    ensures Appended(p, s).Keys == p.Keys
    ensures forall k :: k in p ==> Appended(p, s)[k].person == p[k].person
    ensures KeyedById(p) ==> KeyedById(Appended(p, s))
    decreases |s|
  {
    if s != [] {
      AppendedKeeps(p, s[..|s| - 1]);
    }
  }

  /** After appending reports, each person still has its own manager, and that manager is still in the map. */
  lemma ManagerAfterAppending(p: People, s: seq<nat>, x: nat)
    requires Closed(Managers(p)) && x in p
    ensures x in Appended(p, s) && Appended(p, s)[x].person.managerId == Managers(p)[x]
    ensures Managers(p)[x].Some? ==> Managers(p)[x].value in Appended(p, s)
  {
    AppendedKeeps(p, s);
  }

  /** Appending the ids of a + b is appending those of a, then those of b. */
  lemma {:induction false} AppendedAppend(p: People, a: seq<nat>, b: seq<nat>)
    ensures Appended(p, a + b) == Appended(Appended(p, a), b)
    decreases |b|
  {
    if b != [] {
      var t, x := b[..|b| - 1], b[|b| - 1];
      assert b == t + [x];
      assert a + b == (a + t) + [x];
      AppendedSnoc(p, a + t, x);
      AppendedSnoc(Appended(p, a), t, x);
      AppendedAppend(p, a, t);
    } else {
      assert a + b == a;
    }
  }

  /** After appending the ids of s, every report list has gained exactly the ids of s that report to it, in order. */
  lemma {:induction false} AppendedReports(p: People, s: seq<nat>)
    ensures forall m :: m in p ==>
      m in Appended(p, s) && Appended(p, s)[m].reports == p[m].reports + ReportsIn(Managers(p), s, m)
    decreases |s|
  {
    if s != [] {
      var t, x := s[..|s| - 1], s[|s| - 1];
      var q := Appended(p, t);
      AppendedReports(p, t);
      AppendedKeeps(p, t);
      forall m | m in p
        ensures m in Appended(p, s) && Appended(p, s)[m].reports == p[m].reports + ReportsIn(Managers(p), s, m)
      {
        assert s == t + [x];
        ReportsInSnoc(Managers(p), t, x, m);
        if x in p && p[x].person.managerId == Some(m) {
          assert Appended(p, s)[m].reports == (p[m].reports + ReportsIn(Managers(p), t, m)) + [x];
        } else {
          assert Appended(p, s)[m] == q[m];
        }
      }
    }
  }

  /** How one walk up the manager chain ended. */
  datatype WalkEnd =
    | ReachedRoot               // the last employee of the chain has no manager
    | ReachedSeen(id: nat)      // the next employee was seen by an earlier walk
    | ClosedCycle(id: nat)      // the next employee is already on this walk's chain

  /**
   * The employees one walk from start has seen so far, in order: each the direct report of the
   * next, none repeated, none seen by an earlier walk.
   */
  ghost predicate Trail(g: Chart, seen: set<nat>, start: nat, chain: seq<nat>) {
    && (chain != [] ==> chain[0] == start)
    && Distinct(chain)
    && IsChain(g, chain)
    && (forall i :: 0 <= i < |chain| ==> chain[i] !in seen)
  }

  /** A trail extended by the unseen manager of its last employee is a trail. */
  lemma ExtendTrail(g: Chart, keys: set<nat>, seen: set<nat>, start: nat,
                    seenAfter: set<nat>, chain: seq<nat>, x: nat)
    requires Trail(g, seen, start, chain)
    requires seen <= seenAfter <= keys && seenAfter == seen + Elems(chain)
    requires x in g && x in keys && x !in seenAfter
    requires chain == [] ==> x == start
    requires chain != [] ==> g[chain[|chain| - 1]] == Some(x)
    ensures Trail(g, seen, start, chain + [x])
    ensures seen <= seenAfter + {x} <= keys && seenAfter + {x} == seen + Elems(chain + [x])
  {
    var c := chain + [x];
    assert Elems(c) == Elems(chain) + {x};
    forall i, j | 0 <= i < j < |c|
      ensures c[i] != c[j]
    {
      if j == |chain| {
        assert c[i] in Elems(chain);
      }
    }
    ChainSnoc(g, chain, x);
  }

  /**
   * One walk (src/main.rs:72-96): starting from an unseen employee, mark each new employee seen,
   * record it on the chain and append it to its manager's reports, then move to the manager.
   * The walk ends at an employee without a manager, at one seen by an earlier walk, or at one
   * already on its own chain.
   */
  method Walk(people: People, seen: set<nat>, start: nat)
    returns (linked: People, seenAfter: set<nat>, chain: seq<nat>, end: WalkEnd)
    requires KeyedById(people) && Closed(Managers(people))
    requires start in people && start !in seen && seen <= people.Keys
    ensures linked == Appended(people, chain)
    ensures seenAfter == seen + Elems(chain) && seenAfter <= people.Keys
    ensures chain != [] && Trail(Managers(people), seen, start, chain)
    ensures |chain| <= |people.Keys|
    ensures end.ReachedRoot? ==> Managers(people)[chain[|chain| - 1]] == None
    ensures end.ReachedSeen? ==>
      Managers(people)[chain[|chain| - 1]] == Some(end.id) && end.id in seen
    ensures end.ClosedCycle? ==>
      Managers(people)[chain[|chain| - 1]] == Some(end.id) && end.id in chain
  {
    ghost var g := Managers(people);
    linked := people;
    seenAfter := seen;
    chain := [];
    var cur := start;  // the id of the person the walk is at; positions are keyed by id
    var atRoot := false;
    while !atRoot && cur !in seenAfter
      invariant cur in people && seen <= seenAfter <= people.Keys
      invariant seenAfter == seen + Elems(chain)
      invariant linked == Appended(people, chain)
      invariant Trail(g, seen, start, chain)
      invariant chain == [] ==> cur == start && !atRoot
      invariant chain != [] ==> g[chain[|chain| - 1]] == if atRoot then None else Some(cur)
      invariant |chain| <= |people.Keys|
      decreases |people.Keys| - |chain|
    {
      ManagerAfterAppending(people, chain, cur);
      ExtendTrail(g, people.Keys, seen, start, seenAfter, chain, cur);
      DistinctWithin(chain + [cur], people.Keys);
      AppendedSnoc(people, chain, cur);
      var next := linked[cur].person.managerId;
      chain := chain + [cur];
      seenAfter := seenAfter + {cur};
      match next {
        case Some(m) =>
          linked := linked[m := linked[m].(reports := linked[m].reports + [cur])];
          cur := m;
        case None =>
          atRoot := true;
      }
    }
    end := if atRoot then ReachedRoot else if cur in chain then ClosedCycle(cur) else ReachedSeen(cur);
  }

  /** Joining two duplicate-free sequences with no common element gives a duplicate-free sequence. */
  lemma DistinctJoin(a: seq<nat>, b: seq<nat>)
    requires Distinct(a) && Distinct(b)
    requires forall i :: 0 <= i < |b| ==> b[i] !in Elems(a)
    ensures Distinct(a + b) && Elems(a + b) == Elems(a) + Elems(b)
  {
    var c := a + b;
    forall i, j | 0 <= i < j < |c|
      ensures c[i] != c[j]
    {
      if i < |a| <= j {
        assert c[j] == b[j - |a|];
        assert c[i] in Elems(a);
      }
    }
  }

  /**
   * What the end of a walk shows about the manager relation: a walk that closes on its own chain
   * exhibits a cycle; any other walk leaves every employee it saw with a way up to a root.
   */
  lemma WalkOutcome(g: Chart, seen: set<nat>, start: nat, chain: seq<nat>, end: WalkEnd)
    requires chain != [] && Trail(g, seen, start, chain)
    requires forall k :: k in seen ==> Grounded(g, k)
    requires end.ReachedRoot? ==> g[chain[|chain| - 1]] == None
    requires end.ReachedSeen? ==> g[chain[|chain| - 1]] == Some(end.id) && end.id in seen
    requires end.ClosedCycle? ==> g[chain[|chain| - 1]] == Some(end.id) && end.id in chain
    ensures end.ClosedCycle? ==> HasCycle(g) && !Acyclic(g)
    ensures !end.ClosedCycle? ==> forall k :: k in seen + Elems(chain) ==> Grounded(g, k)
    ensures seen <= seen + Elems(chain) && start in seen + Elems(chain)
  {
    assert chain[0] in Elems(chain);
    match end {
      case ClosedCycle(x) =>
        var k :| 0 <= k < |chain| && chain[k] == x;
        ChainBackEdgeIsCycle(g, chain, k);
        CycleExcludesAcyclic(g);
      case ReachedRoot =>
        assert RootAfter(g, chain[|chain| - 1], 0);
        ChainReachesRoot(g, chain, 0);
      case ReachedSeen(x) =>
        assert Grounded(g, x);
        var n: nat :| RootAfter(g, x, n);
        assert Up(g, chain[|chain| - 1], n + 1) == Up(g, x, n);
        ChainReachesRoot(g, chain, n + 1);
    }
  }

  /** Every id of the iteration order before position i + 1 has been seen. */
  lemma SeenPrefix(order: seq<nat>, i: nat, before: set<nat>, after: set<nat>)
    requires i < |order|
    requires forall t :: 0 <= t < i ==> order[t] in before
    requires before <= after && order[i] in after
    ensures forall t :: 0 <= t < i + 1 ==> order[t] in after
  {
  }

  /**
   * Appending every employee once, starting from empty report lists, lists under each
   * position exactly its direct reports, once each.
   */
  lemma AllLinked(people: People, visited: seq<nat>)
    requires Distinct(visited) && Elems(visited) == people.Keys
    requires forall k :: k in people ==> people[k].reports == []
    ensures Appended(people, visited).Keys == people.Keys
    ensures forall k :: k in people ==> Appended(people, visited)[k].person == people[k].person
    ensures Linked(Appended(people, visited))
  {
    var g := Managers(people);
    var linked := Appended(people, visited);
    AppendedKeeps(people, visited);
    AppendedReports(people, visited);
    forall m | m in people
      ensures Distinct(linked[m].reports)
      ensures forall x :: x in linked[m].reports <==> x in linked && linked[x].person.managerId == Some(m)
    {
      assert linked[m].reports == ReportsIn(g, visited, m);
      ReportsInMembers(g, visited, m);
    }
  }

  /**
   * The whole pass (src/main.rs:64-98): a walk from every employee of the iteration order that no
   * earlier walk has seen. It fails, returning the offending chain, exactly when the manager
   * relation has a cycle; otherwise every position lists exactly its direct reports.
   */
  method LinkReports(people: People, order: seq<nat>) returns (r: Result<People, seq<nat>>)
    requires KeyedById(people) && Closed(Managers(people))
    requires forall k :: k in people <==> k in order
    requires forall k :: k in people ==> people[k].reports == []
    ensures r.Ok? <==> Acyclic(Managers(people))
    ensures r.Err? <==> HasCycle(Managers(people))
    ensures r.Err? ==>
      && r.error != [] && IsChain(Managers(people), r.error)
      && Managers(people)[r.error[|r.error| - 1]].Some?
      && Managers(people)[r.error[|r.error| - 1]].value in r.error
    ensures r.Ok? ==> r.value.Keys == people.Keys
    ensures r.Ok? ==> forall k :: k in people ==> r.value[k].person == people[k].person
    ensures r.Ok? ==> Linked(r.value)
  {
    ghost var g := Managers(people);
    var linked := people;
    var seen: set<nat> := {};
    ghost var visited: seq<nat> := [];
    for i := 0 to |order|
      invariant seen <= people.Keys && seen == Elems(visited) && Distinct(visited)
      invariant forall t :: 0 <= t < i ==> order[t] in seen
      invariant forall k :: k in seen ==> Grounded(g, k)
      invariant linked == Appended(people, visited)
    {
      var id := order[i];
      ghost var before := seen;
      if id !in seen {
        AppendedKeeps(people, visited);
        SameManagers(people, linked);
        var chain, end;
        linked, seen, chain, end := Walk(linked, seen, id);
        WalkOutcome(g, before, id, chain, end);
        if end.ClosedCycle? {
          return Err(chain);
        }
        AppendedAppend(people, visited, chain);
        DistinctJoin(visited, chain);
        visited := visited + chain;
      }
      SeenPrefix(order, i, before, seen);
    }
    forall x | x in g
      ensures Grounded(g, x)
    {
      assert x in order;
    }
    CycleExcludesAcyclic(g);
    AllLinked(people, visited);
    r := Ok(linked);
  }
}
