/**
 * Stage one of the hierarchy engine (src/main.rs:32-61): load the records into a map keyed by
 * id, collect the roots, and repair references to managers that are not in the map by turning
 * the referring employees into roots.
 */
module Repair {
  import opened Wrappers
  import opened Org
  import Forest

  /** The ids that occur in the input. */
  ghost function Ids(data: seq<Person>): set<nat> {
    set p | p in data :: p.id
  }

  /** The last record carrying id k: the one that survives keyed insertion of all records in order. */
  function Latest(data: seq<Person>, k: nat): (p: Person)
    requires k in Ids(data)
    ensures p.id == k
    ensures exists i :: 0 <= i < |data| && data[i] == p && forall j :: i < j < |data| ==> data[j].id != k
    decreases |data|
  {
    var last := data[|data| - 1];
    if last.id == k then last
    else
      assert data == data[..|data| - 1] + [last];
      assert k in Ids(data[..|data| - 1]);
      Latest(data[..|data| - 1], k)
  }

  /** The ids of the records without a manager id, in input order: the first roots. */
  function Unmanaged(data: seq<Person>): seq<nat>
    decreases |data|
  {
    if data == [] then []
    else Unmanaged(data[..|data| - 1]) + (if data[|data| - 1].managerId.None? then [data[|data| - 1].id] else [])
  }

  /** The map after loading: every id of the input holds its last record, with no reports yet. */
  ghost function Loaded(data: seq<Person>): People {
    map k | k in Ids(data) :: Position(Latest(data, k), [])
  }

  /** Loading one more record stores it under its id, replacing any earlier record with that id. */
  lemma LoadedSnoc(data: seq<Person>, p: Person)
    ensures Loaded(data + [p]) == Loaded(data)[p.id := Position(p, [])]
  {
    var d := data + [p];
    assert d[..|d| - 1] == data;
    assert Ids(d) == Ids(data) + {p.id};
    forall k | k in Ids(data) && k != p.id
      ensures Latest(d, k) == Latest(data, k)
    {
    }
  }

  lemma {:induction false} UnmanagedMembers(data: seq<Person>)
    ensures forall x :: x in Unmanaged(data) ==> x in Ids(data)
    decreases |data|
  {
    if data != [] {
      var t := data[..|data| - 1];
      UnmanagedMembers(t);
      assert data == t + [data[|data| - 1]];
    }
  }

  /**
   * Loads the records in input order (src/main.rs:37-45): each record is stored under its id,
   * replacing an earlier one with the same id, and the id of each record without a manager is
   * appended to the roots.
   */
  method Ingest(data: seq<Person>) returns (people: People, roots: seq<nat>)
    ensures people == Loaded(data) && roots == Unmanaged(data)
    ensures people.Keys == Ids(data) && KeyedById(people)
    ensures forall k :: k in people ==> people[k].reports == []
    ensures forall i :: 0 <= i < |roots| ==> roots[i] in people
  {
    people := map[];
    roots := [];
    for i := 0 to |data|
      invariant people == Loaded(data[..i]) && roots == Unmanaged(data[..i])
    {
      var person := data[i];
      assert data[..i + 1] == data[..i] + [person];
      LoadedSnoc(data[..i], person);
      if person.managerId.None? {
        roots := roots + [person.id];
      }
      people := people[person.id := Position(person, [])];
    }
    assert data[..|data|] == data;
    UnmanagedMembers(data);
    assert forall i :: 0 <= i < |roots| ==> roots[i] in roots;
  }

  /** A reported manager reference that names nobody in the input. */
  datatype Diagnostic = MissingManager(id: nat, managerId: nat)

  /** The ids of the reported people, in report order. */
  function DiagIds(ds: seq<Diagnostic>): seq<nat>
    decreases |ds|
  {
    if ds == [] then [] else DiagIds(ds[..|ds| - 1]) + [ds[|ds| - 1].id]
  }

  /** d names a person of the map whose manager id, d's manager id, names nobody in the map. */
  ghost predicate Describes(people: People, d: Diagnostic) {
    Dangling(people, d.id) && people[d.id].person.managerId == Some(d.managerId)
  }

  /**
   * Visits the map in iteration order and, for every person whose manager id names nobody in the
   * map, reports the pair (id, manager id) and appends the id to the roots.
   */
  method CollectDangling(people: People, order: seq<nat>, roots: seq<nat>)
    returns (newRoots: seq<nat>, diags: seq<Diagnostic>)
    requires KeyedById(people)
    requires Forest.Distinct(order) && forall k :: k in people <==> k in order
    ensures newRoots == roots + DiagIds(diags)
    ensures forall d :: d in diags ==> Describes(people, d)
    ensures forall k :: k in DiagIds(diags) <==> Dangling(people, k)
    ensures Forest.Distinct(DiagIds(diags))
  {
    newRoots := roots;
    diags := [];
    for t := 0 to |order|
      invariant newRoots == roots + DiagIds(diags)
      invariant forall d :: d in diags ==> Describes(people, d)
      invariant forall x :: x in DiagIds(diags) ==> x in order[..t] && Dangling(people, x)
      invariant forall k :: k in order[..t] && Dangling(people, k) ==> k in DiagIds(diags)
      invariant Forest.Distinct(DiagIds(diags))
    {
      assert order[..t + 1] == order[..t] + [order[t]];
      assert order[t] !in order[..t];
      var person := people[order[t]].person;
      match person.managerId {
        case Some(m) =>
          if m !in people {
            var d := MissingManager(person.id, m);
            assert (diags + [d])[..|diags|] == diags;
            Forest.DistinctSnoc(DiagIds(diags), d.id);
            diags := diags + [d];
            newRoots := newRoots + [person.id];
          }
        case None =>
      }
    }
    assert order[..|order|] == order;
  }

  /**
   * Clears the manager of every root. When the roots include every person with a dangling
   * manager, every manager id left in the map names a person in the map.
   */
  method ClearManagers(people: People, roots: seq<nat>) returns (repaired: People)
    requires forall i :: 0 <= i < |roots| ==> roots[i] in people
    ensures repaired.Keys == people.Keys
    ensures forall k :: k in people ==>
      && repaired[k].reports == people[k].reports
      && repaired[k].person == if k in roots then people[k].person.(managerId := None) else people[k].person
    ensures forall i :: 0 <= i < |roots| ==> repaired[roots[i]].person.managerId.None?
    ensures (forall k :: Dangling(people, k) ==> k in roots) ==> Forest.Closed(Managers(repaired))
  {
    repaired := people;
    for i := 0 to |roots|
      invariant repaired.Keys == people.Keys
      invariant forall k :: k in people ==>
        && repaired[k].reports == people[k].reports
        && repaired[k].person == if k in roots[..i] then people[k].person.(managerId := None) else people[k].person
    {
      assert roots[..i + 1] == roots[..i] + [roots[i]];
      var pos := repaired[roots[i]];
      repaired := repaired[roots[i] := pos.(person := pos.person.(managerId := None))];
    }
    assert roots[..|roots|] == roots;
    if forall k :: Dangling(people, k) ==> k in roots {
      var g := Managers(repaired);
      forall k | k in g && g[k].Some?
        ensures g[k].value in g
      {
        assert k !in roots;
        assert !Dangling(people, k);
      }
    }
  }
}
