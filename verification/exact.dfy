/**
 * The corrected counting pass. It differs from the as-written one (src/main.rs:100-118) in
 * two places:
 * - Every count starts at zero.
 * - A manager joins the queue only once every one of its direct reports has been popped.
 * Each position then passes its count up exactly once, and only after its count is final.
 * Every count ends equal to the number of people below the position.
 */
module Exact {
  import opened Wrappers
  import opened Org
  import opened Forest
  import opened Counting

  /** Every count reset to zero. */
  ghost function ZeroAll(people: People): People {
    map k | k in people :: WithCount(people[k], 0)
  }

  /** Every id of s is in done. */
  function Ready(s: seq<nat>, done: set<nat>): bool
    decreases |s|
  {
    s == [] || (s[|s| - 1] in done && Ready(s[..|s| - 1], done))
  }

  lemma {:induction false} ReadyIff(s: seq<nat>, done: set<nat>)
    ensures Ready(s, done) <==> forall x :: x in s ==> x in done
    decreases |s|
  {
    if s != [] {
      ReadyIff(s[..|s| - 1], done);
      assert s == s[..|s| - 1] + [s[|s| - 1]];
    }
  }

  /** The queue after a pop that passed a count up to m: m joins at the front once ready. */
  function Admit(q: seq<nat>, m: nat, ready: bool): seq<nat> {
    if ready then [m] + q else q
  }

  /**
   * The corrected queue loop as a function of the chart g, the counts p, the set done of popped
   * ids and the queue q (front first). It pops the back id v and marks it done. If v has a
   * manager m, it adds v's count plus one to m's count, and puts m at the front of the queue
   * when every direct report of m is done.
   */
  ghost function Settle(g: Chart, p: People, done: set<nat>, q: seq<nat>): People
    requires Closed(g) && Acyclic(g) && g.Keys <= p.Keys
    requires forall x :: x in q ==> x in g
    decreases SumOver(q, Headroom(g))
  {
    if q == [] then p
    else
      var v, rest := q[|q| - 1], q[..|q| - 1];
      PopLowersHeadroom(g, q);
      match g[v]
      case None => Settle(g, p, done + {v}, rest)
      case Some(m) =>
        var p' := Bump(p, m, v);
        Settle(g, p', done + {v}, Admit(rest, m, Ready(p'[m].reports, done + {v})))
  }

  /** Settling changes nothing but counts, and only ever raises them. */
  lemma {:induction false} SettleRaises(g: Chart, p: People, done: set<nat>, q: seq<nat>)
    requires Closed(g) && Acyclic(g) && g.Keys <= p.Keys
    requires forall x :: x in q ==> x in g
    ensures Raised(p, Settle(g, p, done, q))
    decreases SumOver(q, Headroom(g))
  {
    if q != [] {
      var v, rest := q[|q| - 1], q[..|q| - 1];
      PopLowersHeadroom(g, q);
      match g[v]
      case None => SettleRaises(g, p, done + {v}, rest);
      case Some(m) =>
        var p' := Bump(p, m, v);
        var q' := Admit(rest, m, Ready(p'[m].reports, done + {v}));
        SettleRaises(g, p', done + {v}, q');
        BumpRaises(p, m, v);
        RaisedTrans(p, p', Settle(g, p', done + {v}, q'));
    }
  }

  /** One pop of a root, as Settle takes it. */
  lemma SettleRoot(g: Chart, p: People, done: set<nat>, q: seq<nat>)
    requires Closed(g) && Acyclic(g) && g.Keys <= p.Keys && q != []
    requires forall x :: x in q ==> x in g
    ensures q[|q| - 1] in g && q[|q| - 1] in p
    ensures forall x :: x in q[..|q| - 1] ==> x in g
    ensures SumOver(q[..|q| - 1], Headroom(g)) < SumOver(q, Headroom(g))
    ensures g[q[|q| - 1]].None? ==> Settle(g, p, done, q) == Settle(g, p, done + {q[|q| - 1]}, q[..|q| - 1])
  {
    PopLowersHeadroom(g, q);
  }

  /** One pop of a position whose manager is m, as Settle takes it. */
  lemma SettleUp(g: Chart, p: People, done: set<nat>, q: seq<nat>, m: nat)
    requires Closed(g) && Acyclic(g) && g.Keys <= p.Keys && q != []
    requires forall x :: x in q ==> x in g
    requires g[q[|q| - 1]] == Some(m)
    ensures m in g && m in p && q[|q| - 1] in p
    ensures forall x :: x in Admit(q[..|q| - 1], m, Ready(Bump(p, m, q[|q| - 1])[m].reports, done + {q[|q| - 1]})) ==> x in g
    ensures SumOver(Admit(q[..|q| - 1], m, Ready(Bump(p, m, q[|q| - 1])[m].reports, done + {q[|q| - 1]})), Headroom(g))
          < SumOver(q, Headroom(g))
    ensures Settle(g, p, done, q)
         == Settle(g, Bump(p, m, q[|q| - 1]), done + {q[|q| - 1]},
                   Admit(q[..|q| - 1], m, Ready(Bump(p, m, q[|q| - 1])[m].reports, done + {q[|q| - 1]})))
  {
    PopLowersHeadroom(g, q);
  }

  /** Zeroes every count, visiting the positions in iteration order. */
  method ResetAll(people: People, order: seq<nat>) returns (start: People)
    requires forall k :: k in people <==> k in order
    ensures start == ZeroAll(people)
  {
    start := people;
    for i := 0 to |order|
      invariant start.Keys == people.Keys
      invariant forall k :: k in people ==> start[k] == if k in order[..i] then WithCount(people[k], 0) else people[k]
    {
      assert order[..i + 1] == order[..i] + [order[i]];
      var k := order[i];
      start := start[k := WithCount(start[k], 0)];
    }
    assert order[..|order|] == order;
  }

  /**
   * The corrected queue loop. Pop the back id and mark it done. If it has a manager, add the
   * id's count plus one to the manager's count, and queue the manager at the front once every
   * one of its direct reports is done. The result is Settle of the starting counts and queue.
   */
  method SettleQueue(start: People, queue: seq<nat>) returns (counted: People)
    requires Closed(Managers(start)) && Acyclic(Managers(start))
    requires forall x :: x in queue ==> x in start
    ensures counted == Settle(Managers(start), start, {}, queue)
  {
    ghost var g := Managers(start);
    counted := start;
    var done: set<nat> := {};
    var nodes := queue;
    while nodes != []
      invariant counted.Keys == start.Keys && Managers(counted) == g
      invariant forall x :: x in nodes ==> x in g
      invariant Settle(g, counted, done, nodes) == Settle(g, start, {}, queue)
      decreases SumOver(nodes, Headroom(g))
    {
      SettleRoot(g, counted, done, nodes);
      var next := nodes[|nodes| - 1];
      assert counted[next].person.managerId == g[next];
      match counted[next].person.managerId {
        case Some(m) =>
          SettleUp(g, counted, done, nodes, m);
          nodes := nodes[..|nodes| - 1];
          BumpManagers(counted, m, next);
          counted := Bump(counted, m, next);
          done := done + {next};
          if Ready(counted[m].reports, done) {
            nodes := [m] + nodes;
          }
        case None =>
          nodes := nodes[..|nodes| - 1];
          done := done + {next};
      }
    }
  }

  // ---------------------------------------------------------------------------
  // Why the corrected loop counts exactly

  /** Every direct report of k is done. */
  ghost predicate Finished(people: People, done: set<nat>, k: nat)
    requires k in people
  {
    forall x :: x in people[k].reports ==> x in done
  }

  /** Per done id, one plus its number of descendants: what it has passed up. */
  ghost function Passed(g: Chart, done: set<nat>): map<nat, nat> {
    map x | x in done && x in g :: |Desc(g, x)| + 1
  }

  /**
   * The queue holds, once each, exactly the positions that are not done and whose direct
   * reports are all done.
   */
  ghost predicate Queued(people: People, q: seq<nat>, done: set<nat>) {
    && Distinct(q)
    && (forall x :: x in q ==> x in people && x !in done)
    && (forall k {:trigger Finished(people, done, k)} :: k in people ==>
          (Finished(people, done, k) <==> k in q || k in done))
  }

  /** Each count is the sum of what its done direct reports have passed up. */
  ghost predicate Tallied(people: People, c: People, done: set<nat>) {
    && SameButCounts(people, c)
    && (forall k {:trigger ReportSum(people, k, Passed(Managers(people), done))} :: k in people ==>
          Count(c, k) == ReportSum(people, k, Passed(Managers(people), done)))
  }

  /** A finished position's reports have passed up exactly its number of descendants. */
  lemma FinishedSize(people: People, done: set<nat>, k: nat)
    requires Linked(people) && Closed(Managers(people)) && Acyclic(Managers(people))
    requires k in people && Finished(people, done, k)
    ensures ReportSum(people, k, Passed(Managers(people), done)) == |Desc(Managers(people), k)|
  {
    var g, s := Managers(people), people[k].reports;
    forall i | 0 <= i < |s|
      ensures At(Passed(g, done), s[i]) == At(Sizes(g), s[i])
    {
      ListedReport(people, k, s[i]);
    }
    SumMono(s, Passed(g, done), Sizes(g));
    SumMono(s, Sizes(g), Passed(g, done));
    ListedChildren(people, k);
    DescSize(g, k, s);
  }

  /** Marking v done records what v passed up. */
  lemma PassedAdd(g: Chart, done: set<nat>, v: nat)
    requires v in g
    ensures Passed(g, done + {v}) == Passed(g, done)[v := |Desc(g, v)| + 1]
  {
  }

  /** At the start nothing is done, every count is zero and the queue holds the positions without reports. */
  lemma ProgressStart(people: People, order: seq<nat>)
    requires Distinct(order) && forall k :: k in people <==> k in order
    ensures Queued(people, LeavesOf(people, order), {})
    ensures Tallied(people, ZeroAll(people), {})
  {
    LeavesOfMembers(people, order);
    forall k | k in people
      ensures Finished(people, {}, k) <==> k in LeavesOf(people, order)
    {
      if people[k].reports != [] {
        assert people[k].reports[0] in people[k].reports;
      }
    }
    forall k | k in people
      ensures Count(ZeroAll(people), k) == ReportSum(people, k, Passed(Managers(people), {}))
    {
      SumZero(people[k].reports, Passed(Managers(people), {}));
    }
  }

  /** Popping a root keeps the queue right. */
  lemma QueuedRoot(people: People, q: seq<nat>, done: set<nat>)
    requires Linked(people) && Queued(people, q, done) && q != []
    requires people[q[|q| - 1]].person.managerId.None?
    ensures Queued(people, q[..|q| - 1], done + {q[|q| - 1]})
  {
    var v, rest := q[|q| - 1], q[..|q| - 1];
    forall k | k in people
      ensures Finished(people, done + {v}, k) <==> Finished(people, done, k)
    {
      assert v !in people[k].reports;
    }
    assert forall k :: k in people ==> (k in q <==> k in rest || k == v);
  }

  /** Popping a root changes no sum over reports. */
  lemma TalliedRoot(people: People, c: People, done: set<nat>, v: nat)
    requires Linked(people) && Tallied(people, c, done) && v in people
    requires people[v].person.managerId.None?
    ensures Tallied(people, c, done + {v})
  {
    var g := Managers(people);
    PassedAdd(g, done, v);
    forall k | k in people
      ensures Count(c, k) == ReportSum(people, k, Passed(g, done + {v}))
    {
      assert v !in people[k].reports;
      assert Count(c, k) == ReportSum(people, k, Passed(g, done));
      SumUpdate(people[k].reports, Passed(g, done), v, |Desc(g, v)| + 1);
    }
  }

  /** Popping v, whose manager is m, and admitting m once it is finished, keeps the queue right. */
  lemma QueuedUp(people: People, q: seq<nat>, done: set<nat>, m: nat)
    requires Linked(people) && Queued(people, q, done) && q != []
    requires people[q[|q| - 1]].person.managerId == Some(m) && m in people
    ensures Queued(people, Admit(q[..|q| - 1], m, Ready(people[m].reports, done + {q[|q| - 1]})), done + {q[|q| - 1]})
  {
    var v, rest := q[|q| - 1], q[..|q| - 1];
    var done' := done + {v};
    var ready := Ready(people[m].reports, done');
    var q' := Admit(rest, m, ready);
    assert v in q && v in people[m].reports && v !in done;
    assert !Finished(people, done, m);
    assert m !in q && m !in done && m != v;
    AdmitKeeps(people, q, done, m, ready);
    ReadyIff(people[m].reports, done');
    forall k | k in people
      ensures Finished(people, done', k) <==> k in q' || k in done'
    {
      if k == m {
        assert Finished(people, done', m) <==> ready;
      } else {
        assert v !in people[k].reports;
        assert Finished(people, done', k) <==> Finished(people, done, k);
      }
    }
  }

  /** Popping v and admitting a manager m that is neither queued nor done keeps a queue of distinct, present, undone ids. */
  lemma AdmitKeeps(people: People, q: seq<nat>, done: set<nat>, m: nat, ready: bool)
    requires Queued(people, q, done) && q != []
    requires m in people && m !in q && m !in done
    ensures Distinct(Admit(q[..|q| - 1], m, ready))
    ensures forall x :: x in Admit(q[..|q| - 1], m, ready) ==> x in people && x !in done + {q[|q| - 1]}
    ensures forall k :: k in Admit(q[..|q| - 1], m, ready) <==> (k in q && k != q[|q| - 1]) || (ready && k == m)
  {
    var v, rest := q[|q| - 1], q[..|q| - 1];
    DistinctPop(q);
    assert forall k :: k in q <==> k in rest || k == v by {
      assert q == rest + [v];
    }
    if ready {
      DistinctCons(m, rest);
    }
  }

  /** Popping v, whose manager is m and whose reports are done, passes v's exact size up to m. */
  lemma TalliedUp(people: People, c: People, q: seq<nat>, done: set<nat>, m: nat)
    requires Linked(people) && Closed(Managers(people)) && Acyclic(Managers(people))
    requires Queued(people, q, done) && Tallied(people, c, done) && q != []
    requires people[q[|q| - 1]].person.managerId == Some(m)
    ensures m in c && q[|q| - 1] in c
    ensures Bump(c, m, q[|q| - 1])[m].reports == people[m].reports
    ensures Tallied(people, Bump(c, m, q[|q| - 1]), done + {q[|q| - 1]})
  {
    var g, v := Managers(people), q[|q| - 1];
    PopFacts(people, v, m);
    assert v in q && v !in done && Finished(people, done, v);
    assert Count(c, v) == ReportSum(people, v, Passed(g, done));
    FinishedSize(people, done, v);
    var c' := Bump(c, m, v);
    BumpRaises(c, m, v);
    SameButCountsTrans(people, c, c');
    PassedAdd(g, done, v);
    forall k | k in people
      ensures Count(c', k) == ReportSum(people, k, Passed(g, done + {v}))
    {
      assert Count(c, k) == ReportSum(people, k, Passed(g, done));
      SumUpdate(people[k].reports, Passed(g, done), v, |Desc(g, v)| + 1);
      if k == m {
        assert v in people[m].reports;
      }
    }
  }

  /**
   * The corrected loop drains a queued, tallied state into counts that are each the number of
   * people below the position.
   */
  lemma {:induction false} SettleExact(people: People, c: People, q: seq<nat>, done: set<nat>)
    requires Linked(people) && Closed(Managers(people)) && Acyclic(Managers(people))
    requires Queued(people, q, done) && Tallied(people, c, done)
    ensures forall k :: k in people ==>
      k in Settle(Managers(people), c, done, q) && Count(Settle(Managers(people), c, done, q), k) == |Desc(Managers(people), k)|
    decreases SumOver(q, Headroom(Managers(people)))
  {
    var g := Managers(people);
    if q == [] {
      forall x | x in g && x !in done
        ensures exists y: nat :: y in g && g[y] == Some(x) && y !in done
      {
        assert !Finished(people, done, x);
        var y :| y in people[x].reports && y !in done;
        ListedReport(people, x, y);
      }
      forall k | k in people
        ensures Count(c, k) == |Desc(g, k)|
      {
        NoUnfinished(g, done, k);
        assert Finished(people, done, k);
        assert Count(c, k) == ReportSum(people, k, Passed(g, done));
        FinishedSize(people, done, k);
      }
    } else {
      PopLowersHeadroom(g, q);
      assert q[|q| - 1] in q;
      assert g[q[|q| - 1]] == people[q[|q| - 1]].person.managerId;
      match people[q[|q| - 1]].person.managerId
      case None =>
        QueuedRoot(people, q, done);
        TalliedRoot(people, c, done, q[|q| - 1]);
        SettleExact(people, c, q[..|q| - 1], done + {q[|q| - 1]});
      case Some(m) =>
        ManagerPresent(people, q[|q| - 1]);
        QueuedUp(people, q, done, m);
        TalliedUp(people, c, q, done, m);
        SettleUp(g, c, done, q, m);
        SettleExact(people, Bump(c, m, q[|q| - 1]),
                    Admit(q[..|q| - 1], m, Ready(Bump(c, m, q[|q| - 1])[m].reports, done + {q[|q| - 1]})),
                    done + {q[|q| - 1]});
    }
  }

  /**
   * What the corrected pass computes from zeroed counts and the positions without reports:
   * nothing but counts changes, and every count is the number of people below the position.
   */
  lemma ExactCounts(people: People, order: seq<nat>)
    requires Linked(people) && Closed(Managers(people)) && Acyclic(Managers(people))
    requires Distinct(order) && forall k :: k in people <==> k in order
    ensures SameButCounts(people, Settle(Managers(people), ZeroAll(people), {}, LeavesOf(people, order)))
    ensures forall k :: k in people ==>
      Count(Settle(Managers(people), ZeroAll(people), {}, LeavesOf(people, order)), k) == |Desc(Managers(people), k)|
  {
    var g, start, leaves := Managers(people), ZeroAll(people), LeavesOf(people, order);
    ProgressStart(people, order);
    SettleExact(people, start, leaves, {});
    SettleRaises(g, start, {}, leaves);
    SameButCountsTrans(people, start, Settle(g, start, {}, leaves));
  }

  /**
   * The corrected counting pass: zero every count, queue the positions without reports, then
   * settle the queue. Every count ends equal to the number of people below the position.
   */
  method CountExact(people: People, order: seq<nat>) returns (counted: People)
    requires Linked(people) && Closed(Managers(people)) && Acyclic(Managers(people))
    requires Distinct(order) && forall k :: k in people <==> k in order
    ensures counted == Settle(Managers(people), ZeroAll(people), {}, LeavesOf(people, order))
    ensures SameButCounts(people, counted)
    ensures forall k :: k in people ==> Count(counted, k) == |Desc(Managers(people), k)|
  {
    var nodes := LeavesOf(people, order);
    counted := ResetAll(people, order);
    SameManagers(people, counted);
    counted := SettleQueue(counted, nodes);
    ExactCounts(people, order);
  }
}
