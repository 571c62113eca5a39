/**
 * Stage three of the hierarchy engine (src/main.rs:100-118): every position's count of people
 * below it, gathered bottom-up from the positions without reports through a double-ended queue.
 *
 * The queue re-admits a manager as soon as one report has passed its count up, so a manager can
 * pass up a partial count and later pass it up again: the counts are then at least the number
 * of people below (CountReports) and can exceed it (OvercountExample). CountExact is the
 * corrected pass that waits for every report before passing a count up.
 */
module Counting {
  import opened Wrappers
  import opened Org
  import opened Forest

  /** The ids of the positions without reports, in iteration order: the initial queue. */
  function LeavesOf(people: People, order: seq<nat>): (r: seq<nat>)
    requires forall i :: 0 <= i < |order| ==> order[i] in people
    ensures forall x :: x in r ==> x in people
    decreases |order|
  {
    if order == [] then []
    else
      var t, x := order[..|order| - 1], order[|order| - 1];
      LeavesOf(people, t) + (if people[x].reports == [] then [x] else [])
  }

  /** The initial queue holds exactly the listed positions without reports, each once if the order repeats none. */
  lemma {:induction false} LeavesOfMembers(people: People, order: seq<nat>)
    requires forall i :: 0 <= i < |order| ==> order[i] in people
    ensures forall x :: x in LeavesOf(people, order) <==> x in order && people[x].reports == []
    ensures Distinct(order) ==> Distinct(LeavesOf(people, order))
    decreases |order|
  {
    if order != [] {
      var t, x := order[..|order| - 1], order[|order| - 1];
      assert order == t + [x];
      assert Distinct(order) ==> Distinct(t) && x !in t;
      LeavesOfMembers(people, t);
    }
  }

  /** The positions without reports get the count zero; all others keep theirs. */
  ghost function ZeroLeaves(people: People): People {
    map k | k in people :: if people[k].reports == [] then WithCount(people[k], 0) else people[k]
  }

  /**
   * The queue loop as a function of the chart g, the counts p and the queue q (front first):
   * pop the back id; if it has a manager, add its count plus one to the manager's count and
   * put the manager at the front unless the queue already holds it.
   */
  ghost function Drain(g: Chart, p: People, q: seq<nat>): People
    requires Closed(g) && Acyclic(g) && g.Keys <= p.Keys
    requires forall x :: x in q ==> x in g
    decreases SumOver(q, Headroom(g))
  {
    if q == [] then p
    else
      var v, rest := q[|q| - 1], q[..|q| - 1];
      PopLowersHeadroom(g, q);
      match g[v]
      case None => Drain(g, p, rest)
      case Some(m) => Drain(g, Bump(p, m, v), Requeue(rest, m))
  }

  /** The queue with m put at the front, unless it already holds m (src/main.rs:114-116). */
  function Requeue(q: seq<nat>, m: nat): (r: seq<nat>)
    ensures forall x :: x in r <==> x in q || x == m
  {
    if m in q then q else [m] + q
  }

  /** Popping the back id and requeueing m keeps a queue without duplicates free of them (src/main.rs:110, 114-116). */
  lemma RequeuePop(q: seq<nat>, m: nat)
    requires Distinct(q) && q != []
    ensures Distinct(q[..|q| - 1]) && Distinct(Requeue(q[..|q| - 1], m))
  {
    DistinctPop(q);
    if m !in q[..|q| - 1] {
      DistinctCons(m, q[..|q| - 1]);
    }
  }

  /** m's count raised by v's count plus one: what one pop of v does to the counts. */
  function Bump(p: People, m: nat, v: nat): People
    requires m in p && v in p
  {
    p[m := WithCount(p[m], Count(p, m) + Count(p, v) + 1)]
  }

  /** r differs from p only in counts, and no count of r is below p's. */
  ghost predicate Raised(p: People, r: People) {
    SameButCounts(p, r) && forall k :: k in p ==> Count(r, k) >= Count(p, k)
  }

  lemma BumpRaises(p: People, m: nat, v: nat)
    requires m in p && v in p
    ensures Raised(p, Bump(p, m, v))
  {
    SetCount(p, m, Count(p, m) + Count(p, v) + 1);
  }

  lemma RaisedTrans(a: People, b: People, c: People)
    requires Raised(a, b) && Raised(b, c)
    ensures Raised(a, c)
  {
    SameButCountsTrans(a, b, c);
  }

  /** Draining changes nothing but counts, and only ever raises them. */
  lemma {:induction false} DrainRaises(g: Chart, p: People, q: seq<nat>)
    requires Closed(g) && Acyclic(g) && g.Keys <= p.Keys
    requires forall x :: x in q ==> x in g
    ensures Raised(p, Drain(g, p, q))
    decreases SumOver(q, Headroom(g))
  {
    if q != [] {
      var v, rest := q[|q| - 1], q[..|q| - 1];
      PopLowersHeadroom(g, q);
      match g[v]
      case None => DrainRaises(g, p, rest);
      case Some(m) =>
        var q' := Requeue(rest, m);
        var p' := Bump(p, m, v);
        DrainRaises(g, p', q');
        BumpRaises(p, m, v);
        RaisedTrans(p, p', Drain(g, p', q'));
    }
  }

  /** Sets the count of each listed position to its number of direct reports (src/main.rs:105-108). */
  method ResetLeaves(people: People, leaves: seq<nat>) returns (reset: People)
    requires forall i :: 0 <= i < |leaves| ==> leaves[i] in people
    ensures reset.Keys == people.Keys
    ensures forall k :: k in people ==>
      reset[k] == if k in leaves then WithCount(people[k], |people[k].reports|) else people[k]
  {
    reset := people;
    for i := 0 to |leaves|
      invariant reset.Keys == people.Keys
      invariant forall k :: k in people ==>
        reset[k] == if k in leaves[..i] then WithCount(people[k], |people[k].reports|) else people[k]
    {
      assert leaves[..i + 1] == leaves[..i] + [leaves[i]];
      var k := leaves[i];
      reset := reset[k := WithCount(reset[k], |reset[k].reports|)];
    }
    assert leaves[..|leaves|] == leaves;
  }

  /** One pop of the queue loop, as Drain takes it. */
  lemma DrainPop(g: Chart, p: People, q: seq<nat>)
    requires Closed(g) && Acyclic(g) && g.Keys <= p.Keys && q != []
    requires forall x :: x in q ==> x in g
    ensures q[|q| - 1] in g && q[|q| - 1] in p
    ensures g[q[|q| - 1]].None? ==> Drain(g, p, q) == Drain(g, p, q[..|q| - 1])
    ensures g[q[|q| - 1]].Some? ==>
      && g[q[|q| - 1]].value in p
      && Drain(g, p, q) == Drain(g, Bump(p, g[q[|q| - 1]].value, q[|q| - 1]), Requeue(q[..|q| - 1], g[q[|q| - 1]].value))
    ensures SumOver(q[..|q| - 1], Headroom(g)) < SumOver(q, Headroom(g))
    ensures forall x :: x in q[..|q| - 1] ==> x in g
    ensures g[q[|q| - 1]].Some? ==>
      && SumOver(Requeue(q[..|q| - 1], g[q[|q| - 1]].value), Headroom(g)) < SumOver(q, Headroom(g))
      && forall x :: x in Requeue(q[..|q| - 1], g[q[|q| - 1]].value) ==> x in g
  {
    PopLowersHeadroom(g, q);
  }

  /** Raising a count changes no manager. */
  lemma BumpManagers(p: People, m: nat, v: nat)
    requires m in p && v in p
    ensures Bump(p, m, v).Keys == p.Keys && Managers(Bump(p, m, v)) == Managers(p)
  {
    SameManagers(p, Bump(p, m, v));
  }

  /** Resetting the listed leaves of a full iteration order zeroes exactly the leaves. */
  lemma ResetIsZeroLeaves(people: People, order: seq<nat>, reset: People)
    requires forall k :: k in people <==> k in order
    requires forall i :: 0 <= i < |order| ==> order[i] in people
    requires reset.Keys == people.Keys
    requires forall k :: k in people ==>
      reset[k] == if k in LeavesOf(people, order) then WithCount(people[k], |people[k].reports|) else people[k]
    ensures reset == ZeroLeaves(people) && SameButCounts(people, reset)
    ensures reset.Keys == people.Keys && Managers(reset) == Managers(people)
  {
    LeavesOfMembers(people, order);
    forall k | k in people
      ensures reset[k] == ZeroLeaves(people)[k]
    {
    }
    SameManagers(people, reset);
  }

  /**
   * What the as-written pass computes from the zeroed leaves: nothing but counts changes, and
   * every count is at least the number of people below the position.
   */
  lemma AsWrittenCovers(people: People, order: seq<nat>)
    requires Linked(people) && Closed(Managers(people)) && Acyclic(Managers(people))
    requires forall k :: k in people <==> k in order
    ensures SameButCounts(people, ZeroLeaves(people))
    ensures SameButCounts(people, Drain(Managers(people), ZeroLeaves(people), LeavesOf(people, order)))
    ensures forall k :: k in people ==>
      Count(Drain(Managers(people), ZeroLeaves(people), LeavesOf(people, order)), k) >= |Desc(Managers(people), k)|
  {
    var g, start, leaves := Managers(people), ZeroLeaves(people), LeavesOf(people, order);
    TallyStart(people, order);
    DrainTally(people, start, leaves, {}, map[]);
    DrainRaises(g, start, leaves);
    var r := Drain(g, start, leaves);
    SameButCountsTrans(people, start, r);
    forall k | k in people
      ensures Count(r, k) >= |Desc(g, k)|
    {
      CountsCoverDescendants(people, r, k);
    }
  }

  /**
   * The as-written counting pass (src/main.rs:100-118): queue the positions without reports and
   * set their counts to their number of reports (zero), then drain the queue. Every count ends
   * at least the number of people below the position, whatever count it started from.
   */
  method CountReports(people: People, order: seq<nat>) returns (counted: People)
    requires Linked(people) && Closed(Managers(people)) && Acyclic(Managers(people))
    requires forall k :: k in people <==> k in order
    ensures counted == Drain(Managers(people), ZeroLeaves(people), LeavesOf(people, order))
    ensures SameButCounts(people, counted)
    ensures forall k :: k in people ==> Count(counted, k) >= |Desc(Managers(people), k)|
  {
    var nodes := LeavesOf(people, order);
    counted := ResetLeaves(people, nodes);
    ResetIsZeroLeaves(people, order, counted);
    counted := DrainQueue(counted, nodes);
    AsWrittenCovers(people, order);
  }

  /**
   * The as-written queue loop (src/main.rs:110-118): pop the back id and, if it has a manager,
   * add its count plus one to the manager's count and put the manager at the front unless
   * already queued. Its result is Drain of the starting counts and queue.
   */
  method DrainQueue(start: People, queue: seq<nat>) returns (counted: People)
    requires Closed(Managers(start)) && Acyclic(Managers(start))
    requires forall x :: x in queue ==> x in start
    ensures counted == Drain(Managers(start), start, queue)
  {
    ghost var g := Managers(start);
    counted := start;
    var nodes := queue;
    while nodes != []
      invariant counted.Keys == start.Keys && Managers(counted) == g
      invariant forall x :: x in nodes ==> x in g
      invariant Drain(g, counted, nodes) == Drain(g, start, queue)
      invariant Distinct(queue) ==> Distinct(nodes)
      decreases SumOver(nodes, Headroom(g))
    {
      ghost var queued := nodes;
      if Distinct(queued) {
        RequeuePop(queued, if g[queued[|queued| - 1]].Some? then g[queued[|queued| - 1]].value else 0);
      }
      DrainPop(g, counted, nodes);
      var next := nodes[|nodes| - 1];
      nodes := nodes[..|nodes| - 1];
      assert counted[next].person.managerId == g[next];
      match counted[next].person.managerId {
        case Some(m) =>
          BumpManagers(counted, m, next);
          counted := Bump(counted, m, next);
          if m !in nodes {
            nodes := [m] + nodes;
          }
          assert nodes == Requeue(queued[..|queued| - 1], m);
        case None =>
      }
    }
  }

  // ---------------------------------------------------------------------------
  // The as-written queue loop

  /**
   * What holds of the as-written queue loop between pops. popped holds the ids popped so far;
   * contrib gives, per popped id, what its latest pop passed up (its count then, plus one).
   */
  ghost predicate Tally(people: People, c: People, q: seq<nat>, popped: set<nat>, contrib: map<nat, nat>) {
    && c.Keys == people.Keys
    && (forall x :: x in q ==> x in people)
    && Settled(c, q, popped, contrib)
    && Covered(people, c, contrib)
    && Waiting(people, q, popped)
  }

  /** Only popped ids have passed anything up; a popped id off the queue still has the count it passed up. */
  ghost predicate Settled(c: People, q: seq<nat>, popped: set<nat>, contrib: map<nat, nat>) {
    && (forall x {:trigger At(contrib, x)} :: x !in popped ==> At(contrib, x) == 0)
    && (forall x {:trigger At(contrib, x)} :: x in popped && x !in q && x in c ==> At(contrib, x) == Count(c, x) + 1)
  }

  /** Every count is at least the sum of the latest contributions of its direct reports. */
  ghost predicate Covered(people: People, c: People, contrib: map<nat, nat>) {
    forall k {:trigger ReportSum(people, k, contrib)} :: k in people && k in c ==> Count(c, k) >= ReportSum(people, k, contrib)
  }

  /** The sum of f over k's direct reports. */
  ghost function ReportSum(people: People, k: nat, f: map<nat, nat>): nat
    requires k in people
  {
    SumOver(people[k].reports, f)
  }

  /** An id that is neither popped nor queued still waits for a direct report that has not been popped. */
  ghost predicate Waiting(people: People, q: seq<nat>, popped: set<nat>) {
    forall k {:trigger Awaits(people, popped, k)} :: k in people && k !in popped && k !in q ==> Awaits(people, popped, k)
  }

  /** k has a direct report that has not been popped. */
  ghost predicate Awaits(people: People, popped: set<nat>, k: nat)
    requires k in people
  {
    exists x :: x in people[k].reports && x !in popped
  }

  /** Every count is at least the sum over the direct reports of their counts plus one. */
  ghost predicate Bounded(people: People, r: People) {
    forall k {:trigger ReportSum(people, k, Succs(r))} :: k in people && k in r ==> Count(r, k) >= ReportSum(people, k, Succs(r))
  }

  lemma TallyStart(people: People, order: seq<nat>)
    requires forall k :: k in people <==> k in order
    ensures Tally(people, ZeroLeaves(people), LeavesOf(people, order), {}, map[])
  {
    var c := ZeroLeaves(people);
    LeavesOfMembers(people, order);
    forall k | k in people && k in c
      ensures Count(c, k) >= ReportSum(people, k, map[])
    {
      SumZero(people[k].reports, map[]);
    }
    forall k | k in people && k !in LeavesOf(people, order)
      ensures Awaits(people, {}, k)
    {
      assert people[k].reports[0] in people[k].reports;
    }
  }

  /** After popping v, the counts passed up are still the settled ones, for any counts the pop leaves alone off the queue. */
  lemma SettledPop(c: People, c': People, q: seq<nat>, q': seq<nat>, popped: set<nat>, contrib: map<nat, nat>)
    requires Settled(c, q, popped, contrib) && q != [] && q[|q| - 1] in c
    requires c'.Keys == c.Keys
    requires forall x :: x in c && x !in q' ==> Count(c', x) == Count(c, x)
    requires forall i :: 0 <= i < |q| - 1 ==> q[i] in q'
    ensures Settled(c', q', popped + {q[|q| - 1]}, contrib[q[|q| - 1] := Count(c, q[|q| - 1]) + 1])
  {
    var v := q[|q| - 1];
    var contrib' := contrib[v := Count(c, v) + 1];
    forall x | x !in popped + {v}
      ensures At(contrib', x) == 0
    {
      assert At(contrib', x) == At(contrib, x);
    }
    forall x | x in popped + {v} && x !in q' && x in c'
      ensures At(contrib', x) == Count(c', x) + 1
    {
      if x != v {
        assert x !in q by {
          if x in q {
            var i :| 0 <= i < |q| && q[i] == x;
          }
        }
        assert At(contrib', x) == At(contrib, x);
      }
    }
  }

  /** After popping v, an id off the queue and unpopped still waits, provided v's manager (if any) is queued. */
  lemma WaitingPop(people: People, q: seq<nat>, q': seq<nat>, popped: set<nat>)
    requires Waiting(people, q, popped) && q != []
    requires forall i :: 0 <= i < |q| - 1 ==> q[i] in q'
    requires forall k :: k in people && q[|q| - 1] in people[k].reports ==> k in q'
    ensures Waiting(people, q', popped + {q[|q| - 1]})
  {
    var v := q[|q| - 1];
    forall k | k in people && k !in popped + {v} && k !in q'
      ensures Awaits(people, popped + {v}, k)
    {
      assert forall i :: 0 <= i < |q| ==> q[i] != k;
      assert Awaits(people, popped, k);
      var x :| x in people[k].reports && x !in popped;
    }
  }

  /** Popping a root changes no sum over a list of direct reports. */
  lemma CoveredAtRoot(people: People, c: People, contrib: map<nat, nat>, v: nat)
    requires Covered(people, c, contrib) && v in c
    requires forall k :: k in people ==> Distinct(people[k].reports) && v !in people[k].reports
    ensures Covered(people, c, contrib[v := Count(c, v) + 1])
  {
    forall k | k in people && k in c
      ensures Count(c, k) >= ReportSum(people, k, contrib[v := Count(c, v) + 1])
    {
      assert Count(c, k) >= ReportSum(people, k, contrib);
      SumUpdate(people[k].reports, contrib, v, Count(c, v) + 1);
    }
  }

  /** In a linked map, the positions listing v as a report are exactly v's manager, if any. */
  lemma ListedBy(people: People, v: nat)
    requires Linked(people) && v in people
    ensures forall k :: k in people ==> Distinct(people[k].reports)
    ensures forall k :: k in people && v in people[k].reports ==> people[v].person.managerId == Some(k)
  {
  }

  /** Popping a root keeps the tally. */
  lemma TallyAtRoot(people: People, c: People, q: seq<nat>, popped: set<nat>, contrib: map<nat, nat>)
    requires Linked(people)
    requires Tally(people, c, q, popped, contrib) && q != []
    requires people[q[|q| - 1]].person.managerId.None?
    ensures Tally(people, c, q[..|q| - 1], popped + {q[|q| - 1]}, contrib[q[|q| - 1] := Count(c, q[|q| - 1]) + 1])
  {
    var v, rest := q[|q| - 1], q[..|q| - 1];
    ListedBy(people, v);
    SettledPop(c, c, q, rest, popped, contrib);
    WaitingPop(people, q, rest, popped);
    CoveredAtRoot(people, c, contrib, v);
  }

  /** Passing v's count up to m keeps every count covering its reports' latest contributions. */
  lemma CoveredUp(people: People, c: People, contrib: map<nat, nat>, v: nat, m: nat)
    requires Covered(people, c, contrib) && v in c && m in c && m != v
    requires forall k :: k in people ==> Distinct(people[k].reports)
    requires forall k :: k in people && v in people[k].reports ==> k == m
    ensures Covered(people, Bump(c, m, v), contrib[v := Count(c, v) + 1])
  {
    var c' := Bump(c, m, v);
    forall k | k in people && k in c'
      ensures Count(c', k) >= ReportSum(people, k, contrib[v := Count(c, v) + 1])
    {
      assert Count(c, k) >= ReportSum(people, k, contrib);
      SumUpdate(people[k].reports, contrib, v, Count(c, v) + 1);
    }
  }

  /** In a closed map, v's manager is present, and the manager relation says so. */
  lemma ManagerPresent(people: People, v: nat)
    requires Closed(Managers(people)) && v in people && people[v].person.managerId.Some?
    ensures people[v].person.managerId.value in people
    ensures v in Managers(people) && Managers(people)[v] == people[v].person.managerId
  {
    assert v in Managers(people);
  }

  /** Requeueing a present id keeps a queue of present ids, and loses nothing. */
  lemma RequeueKeeps(people: People, q: seq<nat>, m: nat)
    requires (forall i :: 0 <= i < |q| ==> q[i] in people) && m in people
    ensures forall x :: x in Requeue(q, m) ==> x in people
    ensures forall i :: 0 <= i < |q| ==> q[i] in Requeue(q, m)
  {
  }

  /** What a linked forest tells about the pop of v, whose manager is m. */
  lemma PopFacts(people: People, v: nat, m: nat)
    requires Linked(people) && Closed(Managers(people)) && Acyclic(Managers(people))
    requires v in people && people[v].person.managerId == Some(m)
    ensures m in people && m != v
    ensures forall k :: k in people ==> Distinct(people[k].reports)
    ensures forall k :: k in people && v in people[k].reports ==> k == m
  {
    ManagerPresent(people, v);
    DescGrows(Managers(people), v, m);
    ListedBy(people, v);
  }

  /** Popping v, passing its count up to m and queueing m keeps the queue and the settled contributions. */
  lemma QueueUp(people: People, c: People, q: seq<nat>, popped: set<nat>, contrib: map<nat, nat>, m: nat)
    requires Tally(people, c, q, popped, contrib) && q != []
    requires m in people && m != q[|q| - 1]
    requires forall k :: k in people && q[|q| - 1] in people[k].reports ==> k == m
    ensures m in c && q[|q| - 1] in c
    ensures Bump(c, m, q[|q| - 1]).Keys == people.Keys
    ensures forall x :: x in Requeue(q[..|q| - 1], m) ==> x in people
    ensures Settled(Bump(c, m, q[|q| - 1]), Requeue(q[..|q| - 1], m),
                    popped + {q[|q| - 1]}, contrib[q[|q| - 1] := Count(c, q[|q| - 1]) + 1])
    ensures Waiting(people, Requeue(q[..|q| - 1], m), popped + {q[|q| - 1]})
  {
    var v, rest := q[|q| - 1], q[..|q| - 1];
    var q' := Requeue(rest, m);
    assert c.Keys == people.Keys;
    var c' := Bump(c, m, v);
    RequeueKeeps(people, rest, m);
    SettledPop(c, c', q, q', popped, contrib);
    WaitingPop(people, q, q', popped);
  }

  /** Popping v, passing its count up to m and queueing m keeps the tally. */
  lemma TallyUp(people: People, c: People, q: seq<nat>, popped: set<nat>, contrib: map<nat, nat>, m: nat)
    requires Tally(people, c, q, popped, contrib) && q != []
    requires m in people && m != q[|q| - 1]
    requires forall k :: k in people ==> Distinct(people[k].reports)
    requires forall k :: k in people && q[|q| - 1] in people[k].reports ==> k == m
    ensures m in c && q[|q| - 1] in c
    ensures Tally(people, Bump(c, m, q[|q| - 1]), Requeue(q[..|q| - 1], m),
                  popped + {q[|q| - 1]}, contrib[q[|q| - 1] := Count(c, q[|q| - 1]) + 1])
  {
    QueueUp(people, c, q, popped, contrib, m);
    CoveredUp(people, c, contrib, q[|q| - 1], m);
  }

  /** A listed report is present and has the listing position as its manager. */
  lemma ListedReport(people: People, k: nat, y: nat)
    requires Linked(people) && k in people && y in people[k].reports
    ensures y in Managers(people) && Managers(people)[y] == Some(k)
  {
    assert y in people;
  }

  /** With an empty queue, every unpopped id has an unpopped child in the manager relation. */
  lemma WaitingForChild(people: People, popped: set<nat>)
    requires Linked(people) && Waiting(people, [], popped)
    ensures forall x :: x in Managers(people) && x !in popped ==>
      exists y: nat :: y in Managers(people) && Managers(people)[y] == Some(x) && y !in popped
  {
    var g := Managers(people);
    forall x | x in g && x !in popped
      ensures exists y: nat :: y in g && g[y] == Some(x) && y !in popped
    {
      assert Awaits(people, popped, x);
      var y :| y in people[x].reports && y !in popped;
      ListedReport(people, x, y);
    }
  }

  /** If every unpopped id waits for an unpopped report, every id has been popped. */
  lemma AllPopped(people: People, popped: set<nat>)
    requires Linked(people) && Closed(Managers(people)) && Acyclic(Managers(people))
    requires Waiting(people, [], popped)
    ensures forall x :: x in people ==> x in popped
  {
    var g := Managers(people);
    WaitingForChild(people, popped);
    forall x | x in people
      ensures x in popped
    {
      NoUnfinished(g, popped, x);
    }
  }

  /** Once the queue is empty, everyone has been popped, so every count covers its reports' counts plus one. */
  lemma TallyDone(people: People, c: People, popped: set<nat>, contrib: map<nat, nat>)
    requires Linked(people) && Closed(Managers(people)) && Acyclic(Managers(people))
    requires Tally(people, c, [], popped, contrib)
    ensures Bounded(people, c)
  {
    AllPopped(people, popped);
    forall k | k in people && k in c
      ensures Count(c, k) >= ReportSum(people, k, Succs(c))
    {
      var s := people[k].reports;
      forall i | 0 <= i < |s|
        ensures At(Succs(c), s[i]) <= At(contrib, s[i])
      {
        ListedReport(people, k, s[i]);
      }
      SumMono(s, Succs(c), contrib);
      assert Count(c, k) >= ReportSum(people, k, contrib);
    }
  }

  /** The as-written loop drains a tallied state into counts that cover their reports' counts plus one. */
  lemma {:induction false} DrainTally(people: People, c: People, q: seq<nat>, popped: set<nat>, contrib: map<nat, nat>)
    requires Linked(people) && Closed(Managers(people)) && Acyclic(Managers(people))
    requires Tally(people, c, q, popped, contrib)
    ensures Bounded(people, Drain(Managers(people), c, q))
    decreases SumOver(q, Headroom(Managers(people)))
  {
    var g := Managers(people);
    if q == [] {
      TallyDone(people, c, popped, contrib);
    } else {
      PopLowersHeadroom(g, q);
      assert q[|q| - 1] in q;
      assert g[q[|q| - 1]] == people[q[|q| - 1]].person.managerId;
      match people[q[|q| - 1]].person.managerId
      case None =>
        TallyAtRoot(people, c, q, popped, contrib);
        DrainTally(people, c, q[..|q| - 1], popped + {q[|q| - 1]}, contrib[q[|q| - 1] := Count(c, q[|q| - 1]) + 1]);
      case Some(m) =>
        PopFacts(people, q[|q| - 1], m);
        TallyUp(people, c, q, popped, contrib, m);
        DrainTally(people, Bump(c, m, q[|q| - 1]), Requeue(q[..|q| - 1], m),
                   popped + {q[|q| - 1]}, contrib[q[|q| - 1] := Count(c, q[|q| - 1]) + 1]);
    }
  }

  /** In a linked map, k's list of reports is exactly k's children in the manager relation, without repeats. */
  lemma ListedChildren(people: People, k: nat)
    requires Linked(people) && k in people
    ensures Distinct(people[k].reports)
    ensures forall x :: x in people[k].reports <==> x in Managers(people) && Managers(people)[x] == Some(k)
  {
  }

  /** A count covering its reports' sizes is at least the number of people below. */
  lemma CoverFromReports(people: People, r: People, k: nat)
    requires Linked(people) && Closed(Managers(people)) && Acyclic(Managers(people))
    requires r.Keys == people.Keys && k in people
    requires Count(r, k) >= ReportSum(people, k, Succs(r))
    requires forall i :: 0 <= i < |people[k].reports| ==>
      At(Sizes(Managers(people)), people[k].reports[i]) <= At(Succs(r), people[k].reports[i])
    ensures Count(r, k) >= |Desc(Managers(people), k)|
  {
    ListedChildren(people, k);
    SumMono(people[k].reports, Sizes(Managers(people)), Succs(r));
    DescSize(Managers(people), k, people[k].reports);
  }

  /** Counts that cover their reports' counts plus one are at least the number of people below. */
  lemma {:induction false} CountsCoverDescendants(people: People, r: People, k: nat)
    requires Linked(people) && Closed(Managers(people)) && Acyclic(Managers(people))
    requires r.Keys == people.Keys && Bounded(people, r) && k in people
    ensures Count(r, k) >= |Desc(Managers(people), k)|
    decreases |Desc(Managers(people), k)|
  {
    var g := Managers(people);
    var s := people[k].reports;
    forall i | 0 <= i < |s|
      ensures At(Sizes(g), s[i]) <= At(Succs(r), s[i])
    {
      var x := s[i];
      ListedReport(people, k, x);
      DescGrows(g, x, k);
      CountsCoverDescendants(people, r, x);
    }
    assert Count(r, k) >= ReportSum(people, k, Succs(r));
    CoverFromReports(people, r, k);
  }

  // ---------------------------------------------------------------------------
  // An input on which the as-written loop overcounts

  function ExamplePosition(id: nat, manager: Option<nat>, reports: seq<nat>, count: nat): Position {
    Position(Person(id, manager, "", "", count), reports)
  }

  /**
   * A six-person organisation, already linked, with the given report counts: 1 is the root,
   * 2 reports to 1, 3 and 4 report to 2, 5 reports to 4 and 6 reports to 5.
   */
  function ExampleWith(r1: nat, r2: nat, r3: nat, r4: nat, r5: nat, r6: nat): People {
    map[1 := ExamplePosition(1, None, [2], r1),
        2 := ExamplePosition(2, Some(1), [3, 4], r2),
        3 := ExamplePosition(3, Some(2), [], r3),
        4 := ExamplePosition(4, Some(2), [5], r4),
        5 := ExamplePosition(5, Some(4), [6], r5),
        6 := ExamplePosition(6, Some(5), [], r6)]
  }

  function ExampleOrg(): People {
    ExampleWith(0, 0, 0, 0, 0, 0)
  }

  const ExampleOrder: seq<nat> := [6, 3, 1, 2, 4, 5]

  /** The chart of the example, described entry by entry. */
  ghost predicate ExampleShape(g: Chart) {
    && g.Keys == {1, 2, 3, 4, 5, 6}
    && g[1] == None && g[2] == Some(1) && g[3] == Some(2)
    && g[4] == Some(2) && g[5] == Some(4) && g[6] == Some(5)
  }

  /** The manager relation of the example organisation has the example's shape. */
  lemma ExampleManagers()
    ensures ExampleShape(Managers(ExampleOrg()))
  {
  }

  lemma ExampleLinked()
    ensures Linked(ExampleOrg())
  {
    var people := ExampleOrg();
    forall m | m in people
      ensures Distinct(people[m].reports)
    {
      assert m in {1, 2, 3, 4, 5, 6};
    }
    forall m, x | m in people
      ensures x in people[m].reports <==> x in people && people[x].person.managerId == Some(m)
    {
      assert m in {1, 2, 3, 4, 5, 6};
    }
  }

  /** A chart of the example's shape is a forest. */
  lemma ShapeAcyclic(g: Chart)
    requires ExampleShape(g)
    ensures Closed(g) && Acyclic(g)
  {
    assert RootAfter(g, 1, 0) && RootAfter(g, 2, 1) && RootAfter(g, 3, 2);
    assert RootAfter(g, 4, 2) && RootAfter(g, 5, 3) && RootAfter(g, 6, 4);
    forall x | x in g
      ensures Grounded(g, x)
    {
      assert x in {1, 2, 3, 4, 5, 6};
    }
  }

  /** The initial queue of the example: the two positions without reports, in iteration order. */
  lemma ExampleLeaves()
    ensures LeavesOf(ExampleOrg(), ExampleOrder) == [6, 3]
  {
    var people := ExampleOrg();
    assert people[6].reports == [] && people[3].reports == [];
    assert people[1].reports != [] && people[2].reports != [];
    assert people[4].reports != [] && people[5].reports != [];
    LeavesOfSix(people);
  }

  /** The leaves in the order 6, 3, 1, 2, 4, 5 of any map in which exactly 6 and 3 have no reports. */
  lemma LeavesOfSix(people: People)
    requires forall k :: k in ExampleOrder ==> k in people
    requires people[6].reports == [] && people[3].reports == []
    requires people[1].reports != [] && people[2].reports != []
    requires people[4].reports != [] && people[5].reports != []
    ensures LeavesOf(people, ExampleOrder) == [6, 3]
  {
    var o0: seq<nat> := [];
    var o1 := o0 + [6];
    LeavesStep(people, o0, 6);
    var o2 := o1 + [3];
    LeavesStep(people, o1, 3);
    var o3 := o2 + [1];
    LeavesStep(people, o2, 1);
    var o4 := o3 + [2];
    LeavesStep(people, o3, 2);
    var o5 := o4 + [4];
    LeavesStep(people, o4, 4);
    var o6 := o5 + [5];
    LeavesStep(people, o5, 5);
    assert o6 == ExampleOrder;
  }

  /** LeavesOf, one id further along the iteration order. */
  lemma LeavesStep(people: People, order: seq<nat>, x: nat)
    requires x in people && forall i :: 0 <= i < |order| ==> order[i] in people
    ensures LeavesOf(people, order + [x]) == LeavesOf(people, order) + (if people[x].reports == [] then [x] else [])
  {
    assert (order + [x])[..|order|] == order;
  }

  /** Zeroing the leaves of the example changes nothing: every count is already zero. */
  lemma ExampleZeroLeaves()
    ensures ZeroLeaves(ExampleOrg()) == ExampleOrg()
  {
    var people := ExampleOrg();
    forall k | k in people
      ensures ZeroLeaves(people)[k] == people[k]
    {
      assert k in {1, 2, 3, 4, 5, 6};
    }
  }

  /** What one bump does to the counts. */
  lemma BumpCount(p: People, m: nat, v: nat)
    requires m in p && v in p
    ensures Bump(p, m, v).Keys == p.Keys
    ensures Count(Bump(p, m, v), m) == Count(p, m) + Count(p, v) + 1
    ensures forall k :: k in p && k != m ==> Count(Bump(p, m, v), k) == Count(p, k)
  {
  }

  /** One pop of a position with manager m, stated for a queue written as rest + [v]. */
  lemma DrainStep(g: Chart, p: People, rest: seq<nat>, v: nat, m: nat)
    requires Closed(g) && Acyclic(g) && g.Keys <= p.Keys
    requires v in g && g[v] == Some(m) && forall x :: x in rest ==> x in g
    ensures m in p && v in p
    ensures Drain(g, p, rest + [v]) == Drain(g, Bump(p, m, v), Requeue(rest, m))
  {
    assert (rest + [v])[..|rest|] == rest;
    DrainPop(g, p, rest + [v]);
  }

  /** Requeueing an id the queue does not hold puts it at the front. */
  lemma RequeueFront(q: seq<nat>, m: nat)
    requires m !in q
    ensures Requeue(q, m) == [m] + q
  {
  }

  /** The first two pops of the example: 3 and then 6 pass their counts up. */
  lemma ExampleFirstPops(g: Chart, p: People) returns (p': People)
    requires Closed(g) && Acyclic(g) && ExampleShape(g) && g.Keys <= p.Keys
    requires forall k :: k in g ==> Count(p, k) == 0
    ensures g.Keys <= p'.Keys
    ensures Drain(g, p, [6] + [3]) == Drain(g, p', [5] + [2])
    ensures Count(p', 1) == 0 && Count(p', 2) == 1 && Count(p', 4) == 0 && Count(p', 5) == 1
  {
    DrainStep(g, p, [6], 3, 2);
    var p1 := Bump(p, 2, 3);
    BumpCount(p, 2, 3);
    RequeueFront([6], 2);
    DrainStep(g, p1, [2], 6, 5);
    p' := Bump(p1, 5, 6);
    BumpCount(p1, 5, 6);
    RequeueFront([2], 5);
  }

  /** The next two pops of the example: 2 and then 5 pass their counts up. */
  lemma ExampleMiddlePops(g: Chart, p: People) returns (p': People)
    requires Closed(g) && Acyclic(g) && ExampleShape(g) && g.Keys <= p.Keys
    requires Count(p, 1) == 0 && Count(p, 2) == 1 && Count(p, 4) == 0 && Count(p, 5) == 1
    ensures g.Keys <= p'.Keys
    ensures Drain(g, p, [5] + [2]) == Drain(g, p', [4] + [1])
    ensures Count(p', 1) == 2 && Count(p', 2) == 1 && Count(p', 4) == 2
  {
    DrainStep(g, p, [5], 2, 1);
    var p1 := Bump(p, 1, 2);
    BumpCount(p, 1, 2);
    RequeueFront([5], 1);
    DrainStep(g, p1, [1], 5, 4);
    p' := Bump(p1, 4, 5);
    BumpCount(p1, 4, 5);
    RequeueFront([1], 4);
  }

  /** The remaining pops of the example: 1, then 4 and 2 pass their counts up again, then 1 once more. */
  lemma ExampleLastPops(g: Chart, p: People)
    requires Closed(g) && Acyclic(g) && ExampleShape(g) && g.Keys <= p.Keys
    requires Count(p, 1) == 2 && Count(p, 2) == 1 && Count(p, 4) == 2
    ensures 1 in Drain(g, p, [4] + [1]) && Count(Drain(g, p, [4] + [1]), 1) == 7
  {
    DrainPop(g, p, [4] + [1]);
    assert ([4] + [1])[..1] == [] + [4];
    DrainStep(g, p, [], 4, 2);
    var p1 := Bump(p, 2, 4);
    BumpCount(p, 2, 4);
    RequeueFront([], 2);
    assert [2] + [] == [] + [2];
    DrainStep(g, p1, [], 2, 1);
    var p2 := Bump(p1, 1, 2);
    BumpCount(p1, 1, 2);
    RequeueFront([], 1);
    DrainPop(g, p2, [1] + []);
  }

  /**
   * On the example the as-written pass gives the root the count 7, although at most 5 people
   * are below it: position 2 passes its count up once after its first report and again after
   * its second, and the root adds both. Stated for any chart of the example's shape and any
   * counts that start at zero; ExampleLeaves, ExampleZeroLeaves and ExampleManagers show that
   * CountReports on ExampleOrg and ExampleOrder drains exactly this chart, counts and queue.
   */
  lemma OvercountExample(g: Chart, p: People)
    requires ExampleShape(g) && g.Keys <= p.Keys
    requires forall k :: k in g ==> Count(p, k) == 0
    ensures Closed(g) && Acyclic(g)
    ensures 1 in Drain(g, p, [6, 3]) && Count(Drain(g, p, [6, 3]), 1) == 7
    ensures |Desc(g, 1)| <= 5
  {
    ShapeAcyclic(g);
    var p1 := ExampleFirstPops(g, p);
    var p2 := ExampleMiddlePops(g, p1);
    ExampleLastPops(g, p2);
    assert [6, 3] == [6] + [3];
    DescBounded(g, 1);
  }
}
