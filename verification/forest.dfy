/**
 * The manager relation of an organisation, abstracted from the employee records.
 * A chart maps every known employee id to the id of that employee's manager, if any.
 * This module defines chains, roots, cycles and descendants over a chart, and sums
 * of per-id values over lists of ids; the stages of the hierarchy engine are
 * specified in these terms.
 */
module Forest {
  import opened Wrappers

  type Chart = map<nat, Option<nat>>

  ghost predicate Distinct(s: seq<nat>) {
    forall i, j :: 0 <= i < j < |s| ==> s[i] != s[j]
  }

  ghost function Elems(s: seq<nat>): set<nat> {
    set x | x in s
  }

  /** A list without repetitions has as many elements as the set of its elements. */
  lemma {:induction false} DistinctSize(s: seq<nat>)
    requires Distinct(s)
    ensures |Elems(s)| == |s|
  {
    if s != [] {
      var t := s[..|s| - 1];
      assert Distinct(t);
      DistinctSize(t);
      assert Elems(s) == Elems(t) + {s[|s| - 1]};
      assert s[|s| - 1] !in Elems(t);
    }
  }

  /** A list without repetitions extended by a new element has no repetitions. */
  lemma DistinctSnoc(s: seq<nat>, x: nat)
    requires Distinct(s) && x !in s
    ensures Distinct(s + [x])
  {
    var c := s + [x];
    forall i, j | 0 <= i < j < |c|
      ensures c[i] != c[j]
    {
      if j == |s| {
        assert c[i] == s[i];
      }
    }
  }

  /** A list without repetitions extended at the front by a new element has no repetitions. */
  lemma DistinctCons(x: nat, s: seq<nat>)
    requires Distinct(s) && x !in s
    ensures Distinct([x] + s)
  {
    var c := [x] + s;
    forall i, j | 0 <= i < j < |c|
      ensures c[i] != c[j]
    {
      assert c[j] == s[j - 1];
      if i > 0 {
        assert c[i] == s[i - 1];
      }
    }
  }

  /** Dropping the last element of a list without repetitions leaves one without it. */
  lemma DistinctPop(s: seq<nat>)
    requires Distinct(s) && s != []
    ensures Distinct(s[..|s| - 1]) && s[|s| - 1] !in s[..|s| - 1]
  {
    assert forall i :: 0 <= i < |s| - 1 ==> s[..|s| - 1][i] == s[i];
  }

  /** A list without repetitions drawn from a set is no longer than the set. */
  lemma DistinctWithin(s: seq<nat>, within: set<nat>)
    requires Distinct(s) && Elems(s) <= within
    ensures |s| <= |within|
  {
    DistinctSize(s);
    SubsetSize(Elems(s), within);
  }

  lemma {:induction false} SubsetSize(a: set<nat>, b: set<nat>)
    requires a <= b
    ensures |a| <= |b|
    decreases |a|
  {
    if a != {} {
      var x: nat :| x in a;
      SubsetSize(a - {x}, b - {x});
    }
  }

  // ---------------------------------------------------------------------------
  // Chains

  /** Every manager named in the chart is itself in the chart. */
  ghost predicate Closed(g: Chart) {
    forall k :: k in g && g[k].Some? ==> g[k].value in g
  }

  /** The id reached by climbing n steps up the manager chain from x, if the chain is that long. */
  ghost function Up(g: Chart, x: nat, n: nat): (r: Option<nat>)
    ensures r.Some? ==> x in g && r.value in g
    decreases n
  {
    if x !in g then None
    else if n == 0 then Some(x)
    else match g[x]
      case None => None
      case Some(m) => Up(g, m, n - 1)
  }

  /** The chain from x ends, after exactly n steps, at an employee without a manager. */
  ghost predicate RootAfter(g: Chart, x: nat, n: nat) {
    Up(g, x, n).Some? && g[Up(g, x, n).value].None?
  }

  /** The chain from x ends at an employee without a manager. */
  ghost predicate Grounded(g: Chart, x: nat) {
    exists n: nat :: RootAfter(g, x, n)
  }

  /** Every chain ends at a root: the manager relation is a forest. */
  ghost predicate Acyclic(g: Chart) {
    forall x {:trigger Grounded(g, x)} :: x in g ==> Grounded(g, x)
  }

  /** Some employee is their own strict ancestor (their own manager, at the shortest). */
  ghost predicate HasCycle(g: Chart) {
    exists x: nat, n: nat :: 0 < n && Up(g, x, n) == Some(x)
  }

  /** Climbing a + b steps is climbing a steps and then b more. */
  lemma {:induction false} UpAdd(g: Chart, x: nat, a: nat, b: nat)
    ensures Up(g, x, a + b) == if Up(g, x, a).Some? then Up(g, Up(g, x, a).value, b) else None
    decreases a
  {
    if x in g && a > 0 && g[x].Some? {
      UpAdd(g, g[x].value, a - 1, b);
    }
  }

  /** A chain that reaches a root after d steps has no element more than d steps up. */
  lemma RootAfterUp(g: Chart, x: nat, d: nat, j: nat)
    requires RootAfter(g, x, d) && Up(g, x, j).Some?
    ensures j <= d && RootAfter(g, Up(g, x, j).value, d - j)
  {
    if j <= d {
      UpAdd(g, x, j, d - j);
    } else {
      UpAdd(g, x, d, j - d);
    }
  }

  /** An employee on a cycle never reaches a root. */
  lemma {:induction false} CycleHasNoRoot(g: Chart, x: nat, n: nat, d: nat)
    requires 0 < n && Up(g, x, n) == Some(x)
    ensures !RootAfter(g, x, d)
    decreases d
  {
    if RootAfter(g, x, d) {
      RootAfterUp(g, x, d, n);
      CycleHasNoRoot(g, x, n, d - n);
    }
  }

  /** A cycle and a forest exclude each other. */
  lemma CycleExcludesAcyclic(g: Chart)
    ensures HasCycle(g) ==> !Acyclic(g)
  {
    if HasCycle(g) {
      var x: nat, n: nat :| 0 < n && Up(g, x, n) == Some(x);
      forall d: nat ensures !RootAfter(g, x, d) {
        CycleHasNoRoot(g, x, n, d);
      }
      assert !Grounded(g, x);
    }
  }

  /** Each element of c is in the chart and has the next element as its manager. */
  ghost predicate IsChain(g: Chart, c: seq<nat>) {
    && (forall i :: 0 <= i < |c| ==> c[i] in g)
    && (forall i {:trigger g[c[i]]} :: 0 <= i < |c| - 1 ==> g[c[i]] == Some(c[i + 1]))
  }

  /** A chain extended by the manager of its last element is still a chain. */
  lemma ChainSnoc(g: Chart, c: seq<nat>, x: nat)
    requires IsChain(g, c) && x in g
    requires c != [] ==> g[c[|c| - 1]] == Some(x)
    ensures IsChain(g, c + [x])
  {
    var d := c + [x];
    forall i | 0 <= i < |d| - 1
      ensures g[d[i]] == Some(d[i + 1])
    {
      if i < |c| - 1 {
        assert d[i] == c[i] && d[i + 1] == c[i + 1];
      }
    }
  }

  /** Climbing t steps from element i of a chain lands on element i + t. */
  lemma {:induction false} UpAlongChain(g: Chart, c: seq<nat>, i: nat, t: nat)
    requires IsChain(g, c) && i + t < |c|
    ensures Up(g, c[i], t) == Some(c[i + t])
    decreases t
  {
    if t > 0 {
      UpAlongChain(g, c, i + 1, t - 1);
    }
  }

  /** A chain whose last element is managed by an element of the chain closes a cycle. */
  lemma ChainBackEdgeIsCycle(g: Chart, c: seq<nat>, k: nat)
    requires IsChain(g, c) && k < |c| && g[c[|c| - 1]] == Some(c[k])
    ensures HasCycle(g)
  {
    var last := |c| - 1;
    UpAlongChain(g, c, k, last - k);
    UpAdd(g, c[k], last - k, 1);
    assert Up(g, c[k], last - k + 1) == Some(c[k]);
  }

  /** If the last element of a chain reaches a root, every element of the chain does. */
  lemma ChainReachesRoot(g: Chart, c: seq<nat>, n: nat)
    requires IsChain(g, c) && c != [] && RootAfter(g, c[|c| - 1], n)
    ensures forall i :: 0 <= i < |c| ==> Grounded(g, c[i])
  {
    forall i | 0 <= i < |c|
      ensures Grounded(g, c[i])
    {
      var t := |c| - 1 - i;
      UpAlongChain(g, c, i, t);
      UpAdd(g, c[i], t, n);
      assert RootAfter(g, c[i], t + n);
    }
  }

  // ---------------------------------------------------------------------------
  // Descendants

  /** a is a strict ancestor of x. */
  ghost predicate Above(g: Chart, a: nat, x: nat) {
    exists n: nat :: 0 < n && Up(g, x, n) == Some(a)
  }

  /** The strict descendants of a: everyone who has a somewhere above them. */
  ghost function Desc(g: Chart, a: nat): set<nat> {
    set x | x in g && Above(g, a, x)
  }

  /** The members of the subtrees rooted at the ids of s. */
  ghost function Under(g: Chart, s: seq<nat>): set<nat>
    decreases |s|
  {
    if s == [] then {} else Under(g, s[..|s| - 1]) + ({s[|s| - 1]} + Desc(g, s[|s| - 1]))
  }

  lemma {:induction false} UnderMembers(g: Chart, s: seq<nat>, x: nat)
    ensures x in Under(g, s) <==> exists i: nat :: 0 <= i < |s| && (x == s[i] || x in Desc(g, s[i]))
    decreases |s|
  {
    if s != [] {
      var t := s[..|s| - 1];
      UnderMembers(g, t, x);
      if x in Under(g, t) {
        var i: nat :| 0 <= i < |t| && (x == t[i] || x in Desc(g, t[i]));
        assert s[i] == t[i];
      }
      if exists i: nat :: 0 <= i < |s| && (x == s[i] || x in Desc(g, s[i])) {
        var i: nat :| 0 <= i < |s| && (x == s[i] || x in Desc(g, s[i]));
        if i < |t| {
          assert t[i] == s[i];
        }
      }
    }
  }

  /** The strict descendants of a are exactly the subtrees of a's direct reports. */
  lemma DescIsUnder(g: Chart, a: nat, kids: seq<nat>)
    requires Closed(g) && a in g
    requires forall x :: x in kids <==> x in g && g[x] == Some(a)
    ensures Desc(g, a) == Under(g, kids)
  {
    forall x
      ensures x in Desc(g, a) <==> x in Under(g, kids)
    {
      UnderMembers(g, kids, x);
      if x in Desc(g, a) {
        var n: nat :| 0 < n && Up(g, x, n) == Some(a);
        UpAdd(g, x, n - 1, 1);
        var y := Up(g, x, n - 1).value;
        assert y in kids;
        var i: nat :| 0 <= i < |kids| && kids[i] == y;
        if n - 1 > 0 {
          assert Above(g, y, x);
        }
        assert x == kids[i] || x in Desc(g, kids[i]);
      }
      if x in Under(g, kids) {
        var i: nat :| 0 <= i < |kids| && (x == kids[i] || x in Desc(g, kids[i]));
        var c := kids[i];
        if x == c {
          assert Up(g, x, 1) == Some(a);
        } else {
          var n: nat :| 0 < n && Up(g, x, n) == Some(c);
          UpAdd(g, x, n, 1);
          assert Up(g, x, n + 1) == Some(a);
        }
      }
    }
  }

  /** In a forest nobody is their own descendant. */
  lemma NotOwnDescendant(g: Chart, x: nat)
    requires Acyclic(g)
    ensures x !in Desc(g, x)
  {
    if x in Desc(g, x) {
      CycleExcludesAcyclic(g);
    }
  }

  /** Moving up to the manager strictly enlarges the set of descendants. */
  lemma DescGrows(g: Chart, v: nat, m: nat)
    requires Closed(g) && Acyclic(g) && v in g && g[v] == Some(m)
    ensures v in Desc(g, m) && Desc(g, v) <= Desc(g, m)
    ensures |Desc(g, v)| < |Desc(g, m)|
  {
    assert Up(g, v, 1) == Some(m);
    forall x | x in Desc(g, v)
      ensures x in Desc(g, m)
    {
      var n: nat :| 0 < n && Up(g, x, n) == Some(v);
      UpAdd(g, x, n, 1);
      assert Up(g, x, n + 1) == Some(m);
    }
    NotOwnDescendant(g, v);
    SubsetSize(Desc(g, v) + {v}, Desc(g, m));
  }

  /** Nobody has everyone in the chart below them. */
  lemma DescBounded(g: Chart, v: nat)
    requires Acyclic(g) && v in g
    ensures |Desc(g, v)| < |g|
  {
    NotOwnDescendant(g, v);
    SubsetSize(Desc(g, v) + {v}, g.Keys);
  }

  /** If v is c's ancestor and c's sibling, the shared manager is its own ancestor. */
  lemma NestedSiblingsCycle(g: Chart, a: nat, c1: nat, c2: nat, t: nat)
    requires Closed(g) && c1 in g && c2 in g && g[c1] == Some(a) && g[c2] == Some(a)
    requires 0 < t && Up(g, c1, t) == Some(c2)
    ensures HasCycle(g)
  {
    UpAdd(g, c1, t, 1);
    UpAdd(g, c1, 1, t);
    assert Up(g, a, t) == Some(a);
  }

  /** Under x in the subtree of c lies a climb of some length from x to c. */
  lemma ClimbTo(g: Chart, c: nat, x: nat) returns (n: nat)
    requires c in g && x in {c} + Desc(g, c)
    ensures Up(g, x, n) == Some(c)
  {
    if x == c {
      n := 0;
    } else {
      n :| 0 < n && Up(g, x, n) == Some(c);
    }
  }

  /** The subtrees of two different direct reports of one manager do not overlap. */
  lemma SiblingsApart(g: Chart, a: nat, c1: nat, c2: nat)
    requires Closed(g) && Acyclic(g) && c1 in g && c2 in g && c1 != c2
    requires g[c1] == Some(a) && g[c2] == Some(a)
    ensures ({c1} + Desc(g, c1)) !! ({c2} + Desc(g, c2))
  {
    forall x | x in {c1} + Desc(g, c1) && x in {c2} + Desc(g, c2)
      ensures false
    {
      var i := ClimbTo(g, c1, x);
      var j := ClimbTo(g, c2, x);
      if i < j {
        UpAdd(g, x, i, j - i);
        NestedSiblingsCycle(g, a, c1, c2, j - i);
      } else if j < i {
        UpAdd(g, x, j, i - j);
        NestedSiblingsCycle(g, a, c2, c1, i - j);
      }
      CycleExcludesAcyclic(g);
    }
  }

  /** Distinct direct reports of one manager cover one plus their own descendants each. */
  lemma {:induction false} UnderSize(g: Chart, a: nat, s: seq<nat>)
    requires Closed(g) && Acyclic(g) && Distinct(s)
    requires forall i :: 0 <= i < |s| ==> s[i] in g && g[s[i]] == Some(a)
    ensures |Under(g, s)| == SumOver(s, Sizes(g))
    decreases |s|
  {
    if s != [] {
      var t := s[..|s| - 1];
      var c := s[|s| - 1];
      UnderSize(g, a, t);
      NotOwnDescendant(g, c);
      forall x | x in Under(g, t)
        ensures x !in {c} + Desc(g, c)
      {
        UnderMembers(g, t, x);
        var i: nat :| 0 <= i < |t| && (x == t[i] || x in Desc(g, t[i]));
        SiblingsApart(g, a, t[i], c);
      }
      assert |{c} + Desc(g, c)| == |Desc(g, c)| + 1;
    }
  }

  /** The number of strict descendants of a is the sum of one plus that number over a's direct reports. */
  lemma DescSize(g: Chart, a: nat, kids: seq<nat>)
    requires Closed(g) && Acyclic(g) && a in g && Distinct(kids)
    requires forall x :: x in kids <==> x in g && g[x] == Some(a)
    ensures |Desc(g, a)| == SumOver(kids, Sizes(g))
  {
    DescIsUnder(g, a, kids);
    UnderSize(g, a, kids);
  }

  /**
   * If every unfinished employee has an unfinished direct report, everyone is finished: following
   * unfinished reports downwards would otherwise never end.
   */
  lemma {:induction false} NoUnfinished(g: Chart, done: set<nat>, k: nat)
    requires Closed(g) && Acyclic(g) && k in g
    requires forall x :: x in g && x !in done ==> exists c: nat :: c in g && g[c] == Some(x) && c !in done
    ensures k in done
    decreases |Desc(g, k)|
  {
    if k !in done {
      var c: nat :| c in g && g[c] == Some(k) && c !in done;
      DescGrows(g, c, k);
      NoUnfinished(g, done, c);
    }
  }

  // ---------------------------------------------------------------------------
  // Sums of per-id values over lists of ids

  function At(f: map<nat, nat>, x: nat): nat {
    if x in f then f[x] else 0
  }

  ghost function SumOver(s: seq<nat>, f: map<nat, nat>): nat
    decreases |s|
  {
    if s == [] then 0 else SumOver(s[..|s| - 1], f) + At(f, s[|s| - 1])
  }

  /** One plus the number of strict descendants, per id. */
  ghost function Sizes(g: Chart): map<nat, nat> {
    map x | x in g :: |Desc(g, x)| + 1
  }

  lemma {:induction false} SumPrepend(x: nat, s: seq<nat>, f: map<nat, nat>)
    ensures SumOver([x] + s, f) == At(f, x) + SumOver(s, f)
    decreases |s|
  {
    if s != [] {
      assert ([x] + s)[..|s|] == [x] + s[..|s| - 1];
      SumPrepend(x, s[..|s| - 1], f);
    }
  }

  lemma {:induction false} SumMono(s: seq<nat>, f: map<nat, nat>, h: map<nat, nat>)
    requires forall i :: 0 <= i < |s| ==> At(f, s[i]) <= At(h, s[i])
    ensures SumOver(s, f) <= SumOver(s, h)
    decreases |s|
  {
    if s != [] {
      SumMono(s[..|s| - 1], f, h);
    }
  }

  /** Changing the value of one id changes a sum over distinct ids by the difference, if the id is listed. */
  lemma {:induction false} SumUpdate(s: seq<nat>, f: map<nat, nat>, x: nat, y: nat)
    requires Distinct(s)
    ensures SumOver(s, f[x := y]) + (if x in s then At(f, x) else 0)
         == SumOver(s, f) + (if x in s then y else 0)
    decreases |s|
  {
    if s != [] {
      var t := s[..|s| - 1];
      assert Distinct(t);
      SumUpdate(t, f, x, y);
      assert x in s <==> x in t || x == s[|s| - 1];
      assert x == s[|s| - 1] ==> x !in t;
    }
  }

  /** A sum of naturals is zero exactly when every term is. */
  lemma {:induction false} SumZero(s: seq<nat>, f: map<nat, nat>)
    ensures SumOver(s, f) == 0 <==> forall i :: 0 <= i < |s| ==> At(f, s[i]) == 0
    decreases |s|
  {
    if s != [] {
      SumZero(s[..|s| - 1], f);
    }
  }

  // ---------------------------------------------------------------------------
  // A measure for work lists that move upwards

  /** The room left above x: the chart's size less x's number of descendants (at least one in a forest). */
  ghost function Headroom(g: Chart): map<nat, nat> {
    map x | x in g :: if |Desc(g, x)| < |g| then |g| - |Desc(g, x)| else 0
  }

  /**
   * Removing the last id of a work list lowers its total headroom, and so does replacing it by its
   * manager at the front: the manager has strictly less room above it.
   */
  lemma PopLowersHeadroom(g: Chart, q: seq<nat>)
    requires Closed(g) && Acyclic(g) && q != []
    requires forall i :: 0 <= i < |q| ==> q[i] in g
    ensures SumOver(q[..|q| - 1], Headroom(g)) < SumOver(q, Headroom(g))
    ensures g[q[|q| - 1]].Some? ==>
      SumOver([g[q[|q| - 1]].value] + q[..|q| - 1], Headroom(g)) < SumOver(q, Headroom(g))
  {
    var v := q[|q| - 1];
    var rest := q[..|q| - 1];
    DescBounded(g, v);
    if g[v].Some? {
      var m := g[v].value;
      DescGrows(g, v, m);
      DescBounded(g, m);
      SumPrepend(m, rest, Headroom(g));
    }
  }
}
