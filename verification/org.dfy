/**
 * The employee records and the working map of the hierarchy engine.
 * A `Person` is one row of the input table; a `Position` wraps a person with the list of
 * direct reports that the linking pass fills in. The engine keeps all positions in a map
 * keyed by employee id.
 */
module Org {
  import opened Wrappers
  import Forest

  /** One employee record. `costCenter` and `jobTitle` are opaque text, carried through unchanged. */
  datatype Person = Person(
    id: nat,
    managerId: Option<nat>,
    costCenter: string,
    jobTitle: string,
    recursiveReports: nat)

  datatype Position = Position(person: Person, reports: seq<nat>)

  type People = map<nat, Position>

  /** The manager relation of a map of positions. */
  function Managers(people: People): Forest.Chart {
    map k | k in people :: people[k].person.managerId
  }

  function Count(people: People, k: nat): nat
    requires k in people
  {
    people[k].person.recursiveReports
  }

  /** The position with its person's report count replaced by n. */
  function WithCount(pos: Position, n: nat): Position {
    pos.(person := pos.person.(recursiveReports := n))
  }

  /** Every position is stored under its own person's id. */
  ghost predicate KeyedById(people: People) {
    forall k :: k in people ==> people[k].person.id == k
  }

  /** k's manager id names nobody in the map. */
  ghost predicate Dangling(people: People, k: nat) {
    k in people && people[k].person.managerId.Some? && people[k].person.managerId.value !in people
  }

  /** Each position lists every one of its direct reports exactly once, and nobody else. */
  ghost predicate Linked(people: People) {
    && (forall m :: m in people ==> Forest.Distinct(people[m].reports))
    && (forall m, x {:trigger x in people[m].reports} :: m in people ==>
          (x in people[m].reports <==> x in people && people[x].person.managerId == Some(m)))
  }

  /** Two maps hold the same people and reports and differ at most in the report counts. */
  ghost predicate SameButCounts(before: People, after: People) {
    && after.Keys == before.Keys
    && forall k :: k in before ==> WithCount(after[k], 0) == WithCount(before[k], 0)
  }

  /** The map's report counts, each plus one: what a position passes up to its manager. */
  ghost function Succs(people: People): map<nat, nat> {
    map k | k in people :: people[k].person.recursiveReports + 1
  }

  /** Maps with the same ids and the same manager ids have the same manager relation. */
  lemma SameManagers(before: People, after: People)
    requires after.Keys == before.Keys
    requires forall k :: k in before ==> after[k].person.managerId == before[k].person.managerId
    ensures Managers(after) == Managers(before)
  {
    forall k | k in before
      ensures Managers(after)[k] == Managers(before)[k]
    {
      assert after[k].person.managerId == before[k].person.managerId;
    }
  }

  /** Setting one count differs from the original only in counts. */
  lemma SetCount(people: People, k: nat, n: nat)
    requires k in people
    ensures SameButCounts(people, people[k := WithCount(people[k], n)])
  {
  }

  /** Differing only in counts is transitive. */
  lemma SameButCountsTrans(a: People, b: People, c: People)
    requires SameButCounts(a, b) && SameButCounts(b, c)
    ensures SameButCounts(a, c)
  {
  }
}
