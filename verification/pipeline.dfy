/**
 * The hierarchy engine end to end (src/main.rs:32-129): load the records, repair dangling
 * manager references, link reports while rejecting cycles, count the people below every
 * position, and rank everyone by that count. Counting uses the corrected pass.
 */
module Pipeline {
  import opened Wrappers
  import opened Org
  import opened Forest
  import opened Repair
  import Linking
  import Counting
  import Exact
  import Ranking

  /**
   * The manager relation after repair. An id keeps the manager of its last record unless some
   * record with that id has no manager, or the manager names nobody in the input.
   */
  ghost function RepairedChart(data: seq<Person>): Chart {
    map k | k in Ids(data) ::
      if k in Unmanaged(data) || Dangling(Loaded(data), k) then None else Latest(data, k).managerId
  }

  /** The record emitted for id k: its last record, with the repaired manager and its number of people below. */
  ghost function Final(data: seq<Person>, k: nat): Person
    requires k in Ids(data)
  {
    Latest(data, k).(managerId := RepairedChart(data)[k], recursiveReports := |Desc(RepairedChart(data), k)|)
  }

  /** The emitted records, in iteration order. */
  ghost function FinalList(data: seq<Person>, order: seq<nat>): seq<Person>
    requires forall i :: 0 <= i < |order| ==> order[i] in Ids(data)
    decreases |order|
  {
    if order == [] then []
    else FinalList(data, order[..|order| - 1]) + [Final(data, order[|order| - 1])]
  }

  /** The repaired people are the last records, each with the repaired manager. */
  lemma RepairedPeople(data: seq<Person>, roots: seq<nat>, diags: seq<Diagnostic>, repaired: People)
    requires roots == Unmanaged(data) + DiagIds(diags)
    requires forall k :: k in DiagIds(diags) <==> Dangling(Loaded(data), k)
    requires repaired.Keys == Ids(data)
    requires forall k :: k in Ids(data) ==>
      repaired[k].person == if k in roots then Latest(data, k).(managerId := None) else Latest(data, k)
    ensures forall k :: k in Ids(data) ==> repaired[k].person == Latest(data, k).(managerId := RepairedChart(data)[k])
  {
    forall k | k in Ids(data)
      ensures repaired[k].person == Latest(data, k).(managerId := RepairedChart(data)[k])
    {
      assert k in roots <==> k in Unmanaged(data) || k in DiagIds(diags);
    }
  }

  /** A map of last records with the repaired managers has the repaired manager relation and is keyed by id. */
  lemma RepairedIs(data: seq<Person>, repaired: People)
    requires repaired.Keys == Ids(data)
    requires forall k :: k in Ids(data) ==> repaired[k].person == Latest(data, k).(managerId := RepairedChart(data)[k])
    ensures Managers(repaired) == RepairedChart(data)
    ensures KeyedById(repaired)
  {
  }

  /**
   * The repair stage (src/main.rs:37-61): load the records, report and collect the people whose
   * manager is not in the input, and clear the manager of every root. The result holds every
   * last record, with the repaired manager and no reports; every manager left names someone in it.
   */
  method RepairStage(data: seq<Person>, order: seq<nat>) returns (repaired: People, diags: seq<Diagnostic>)
    requires Distinct(order) && forall k :: k in Ids(data) <==> k in order
    ensures forall d :: d in diags ==> Describes(Loaded(data), d)
    ensures forall k :: k in DiagIds(diags) <==> Dangling(Loaded(data), k)
    ensures Distinct(DiagIds(diags))
    ensures repaired.Keys == Ids(data) && KeyedById(repaired)
    ensures Managers(repaired) == RepairedChart(data) && Closed(RepairedChart(data))
    ensures forall k :: k in repaired ==> repaired[k].reports == []
    ensures forall k :: k in Ids(data) ==> repaired[k].person == Latest(data, k).(managerId := RepairedChart(data)[k])
  {
    var people, roots := Ingest(data);
    var newRoots;
    newRoots, diags := CollectDangling(people, order, roots);
    assert forall i :: 0 <= i < |newRoots| ==> newRoots[i] in people by {
      forall i | 0 <= i < |newRoots|
        ensures newRoots[i] in people
      {
        if i >= |roots| {
          assert newRoots[i] in DiagIds(diags);
        }
      }
    }
    repaired := ClearManagers(people, newRoots);
    RepairedPeople(data, newRoots, diags, repaired);
    RepairedIs(data, repaired);
  }

  /** The linked map with every count set to the number of people below the position. */
  ghost function Exactly(linked: People): People {
    map k | k in linked :: WithCount(linked[k], |Desc(Managers(linked), k)|)
  }

  /** Counts that differ from the linked map's only in being exact make up Exactly. */
  lemma ExactlyIs(linked: People, counted: People)
    requires SameButCounts(linked, counted)
    requires forall k :: k in linked ==> Count(counted, k) == |Desc(Managers(linked), k)|
    ensures counted == Exactly(linked)
  {
    forall k | k in linked
      ensures counted[k] == Exactly(linked)[k]
    {
      assert WithCount(counted[k], 0) == WithCount(linked[k], 0);
    }
  }

  /** Listing the exactly counted linked map of a repaired input lists the final records. */
  lemma {:induction false} ExactlyListed(data: seq<Person>, order: seq<nat>, linked: People)
    requires forall i :: 0 <= i < |order| ==> order[i] in Ids(data)
    requires linked.Keys == Ids(data) && Managers(linked) == RepairedChart(data)
    requires forall k :: k in Ids(data) ==> linked[k].person == Latest(data, k).(managerId := RepairedChart(data)[k])
    ensures Ranking.Listed(Exactly(linked), order) == FinalList(data, order)
    decreases |order|
  {
    if order != [] {
      ExactlyListed(data, order[..|order| - 1], linked);
    }
  }

  /** Each final record is emitted under its own id. */
  lemma {:induction false} FinalListMembers(data: seq<Person>, order: seq<nat>)
    requires forall i :: 0 <= i < |order| ==> order[i] in Ids(data)
    ensures forall p :: p in FinalList(data, order) <==> p.id in order && p == Final(data, p.id)
    decreases |order|
  {
    if order != [] {
      var t, k := order[..|order| - 1], order[|order| - 1];
      FinalListMembers(data, t);
      assert order == t + [k];
    }
  }

  /** c is a chain of the relation whose last member's manager is already in c: a cycle. */
  ghost predicate Closes(g: Chart, c: seq<nat>) {
    && c != [] && IsChain(g, c)
    && g[c[|c| - 1]].Some? && g[c[|c| - 1]].value in c
  }

  /**
   * The ranked final records: every final record once, from the largest count to the smallest,
   * equal counts in the reverse of the iteration order.
   */
  lemma Emitted(data: seq<Person>, order: seq<nat>)
    requires Distinct(order) && forall k :: k in Ids(data) <==> k in order
    ensures |Ranking.Reversed(Ranking.Sort(FinalList(data, order)))| == |Ids(data)|
    ensures Ranking.Descending(Ranking.Reversed(Ranking.Sort(FinalList(data, order))))
    ensures forall p :: p in Ranking.Reversed(Ranking.Sort(FinalList(data, order))) <==> p.id in Ids(data) && p == Final(data, p.id)
    ensures forall n :: Ranking.Tier(Ranking.Reversed(Ranking.Sort(FinalList(data, order))), n)
                     == Ranking.Reversed(Ranking.Tier(FinalList(data, order), n))
  {
    Ranking.RankedList(FinalList(data, order));
    EmittedMembers(data, order);
    FinalListLength(data, order);
    OrderSize(data, order);
  }

  /** The ranked final records are exactly the final records of the input ids. */
  lemma EmittedMembers(data: seq<Person>, order: seq<nat>)
    requires forall k :: k in Ids(data) <==> k in order
    ensures forall p :: p in Ranking.Reversed(Ranking.Sort(FinalList(data, order))) <==> p.id in Ids(data) && p == Final(data, p.id)
  {
    var s := FinalList(data, order);
    var r := Ranking.Reversed(Ranking.Sort(s));
    Ranking.RankedList(s);
    FinalListMembers(data, order);
    forall p
      ensures p in r <==> p in s
    {
      assert p in r <==> p in multiset(r);
      assert p in s <==> p in multiset(s);
    }
  }

  /** An iteration order naming every input id once is as long as the set of ids. */
  lemma OrderSize(data: seq<Person>, order: seq<nat>)
    requires Distinct(order) && forall k :: k in Ids(data) <==> k in order
    ensures |order| == |Ids(data)|
  {
    DistinctSize(order);
    assert Elems(order) == Ids(data);
  }

  lemma {:induction false} FinalListLength(data: seq<Person>, order: seq<nat>)
    requires forall i :: 0 <= i < |order| ==> order[i] in Ids(data)
    ensures |FinalList(data, order)| == |order|
    decreases |order|
  {
    if order != [] {
      FinalListLength(data, order[..|order| - 1]);
    }
  }

  /**
   * The engine (src/main.rs:32-129). The diagnostics name exactly the people whose manager is
   * not in the input. The run fails, with a chain that closes on itself, exactly when the
   * repaired manager relation has a cycle. Otherwise it emits the final records ranked: every
   * one once, each with the repaired manager and the number of people below, from the largest
   * count to the smallest (Emitted).
   */
  method Run(data: seq<Person>, order: seq<nat>) returns (outcome: Result<seq<Person>, seq<nat>>, diags: seq<Diagnostic>)
    requires Distinct(order) && forall k :: k in Ids(data) <==> k in order
    ensures forall d :: d in diags ==> Describes(Loaded(data), d)
    ensures forall k :: k in DiagIds(diags) <==> Dangling(Loaded(data), k)
    ensures Distinct(DiagIds(diags))
    ensures outcome.Err? <==> HasCycle(RepairedChart(data))
    ensures outcome.Err? ==> Closes(RepairedChart(data), outcome.error)
    ensures outcome.Ok? ==> outcome.value == Ranking.Reversed(Ranking.Sort(FinalList(data, order)))
  {
    var repaired;
    repaired, diags := RepairStage(data, order);
    var linking := Linking.LinkReports(repaired, order);
    if linking.Err? {
      assert Closes(Managers(repaired), linking.error);
      outcome := Err(linking.error);
    } else {
      var linked := linking.value;
      SameManagers(repaired, linked);
      var ranked := CountAndRank(linked, order);
      ExactlyListed(data, order, linked);
      outcome := Ok(ranked);
    }
  }

  /**
   * The counting and ranking stages (src/main.rs:100-129) on a linked acyclic map: the people
   * with exact counts, ranked.
   */
  method CountAndRank(linked: People, order: seq<nat>) returns (ranked: seq<Person>)
    requires Linked(linked) && Closed(Managers(linked)) && Acyclic(Managers(linked))
    requires Distinct(order) && forall k :: k in linked <==> k in order
    ensures ranked == Ranking.Reversed(Ranking.Sort(Ranking.Listed(Exactly(linked), order)))
  {
    var counted := Exact.CountExact(linked, order);
    ExactlyIs(linked, counted);
    ranked := Ranking.Rank(counted, order);
  }
}
