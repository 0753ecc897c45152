/** The employee_hierarchy table and its queries. The table is a sequence of supervisor ->
    subordinate edges in store order; each query is a function over it. Reachability is given
    twice: by walks (the specification) and by a closure computed to a fixpoint (what the
    recursive query returns), and the two are proved to agree. */
module HierarchyRepository {
  import opened Base
  import opened Seqs

  /** One row: `from` supervises `to`. */
  datatype Edge = Edge(from: int, to: int)

  // ---------------------------------------------------------------------------------------
  // Walks: the specification of reachability

  /** `w` is a sequence of employee ids, each supervising the next one. */
  ghost predicate IsWalk(edges: seq<Edge>, w: seq<int>) {
    |w| >= 1 && forall i :: 0 <= i < |w| - 1 ==> Edge(w[i], w[i + 1]) in edges
  }

  /** `b` is `a` or lies (transitively) under `a`. */
  ghost predicate Reaches(edges: seq<Edge>, a: int, b: int) {
    exists w :: IsWalk(edges, w) && w[0] == a && w[|w| - 1] == b
  }

  /** `b` lies (transitively) under `a`, following at least one edge. */
  ghost predicate ReachesPlus(edges: seq<Edge>, a: int, b: int) {
    exists w :: IsWalk(edges, w) && |w| >= 2 && w[0] == a && w[|w| - 1] == b
  }

  /** No employee lies (transitively) under themself. */
  ghost predicate Acyclic(edges: seq<Edge>) {
    forall a :: !ReachesPlus(edges, a, a)
  }

  /** Every employee is the subordinate of at most one edge. */
  ghost predicate SingleParent(edges: seq<Edge>) {
    forall i, j :: 0 <= i < |edges| && 0 <= j < |edges| && edges[i].to == edges[j].to ==> i == j
  }

  lemma ReachesRefl(edges: seq<Edge>, a: int)
    ensures Reaches(edges, a, a)
  {
    assert IsWalk(edges, [a]);
  }

  /** A walk followed by one more edge. */
  lemma ReachesStep(edges: seq<Edge>, a: int, b: int, c: int)
    requires Reaches(edges, a, b) && Edge(b, c) in edges
    ensures Reaches(edges, a, c) && ReachesPlus(edges, a, c)
  {
    var w :| IsWalk(edges, w) && w[0] == a && w[|w| - 1] == b;
    var w' := w + [c];
    assert forall i :: 0 <= i < |w'| - 1 ==> Edge(w'[i], w'[i + 1]) in edges by {
      forall i | 0 <= i < |w'| - 1 ensures Edge(w'[i], w'[i + 1]) in edges {
        if i < |w| - 1 {
          assert w'[i] == w[i] && w'[i + 1] == w[i + 1];
        }
      }
    }
    assert IsWalk(edges, w');
  }

  lemma {:induction false} ReachesTrans(edges: seq<Edge>, a: int, b: int, c: int)
    requires Reaches(edges, a, b) && Reaches(edges, b, c)
    ensures Reaches(edges, a, c)
  {
    var w :| IsWalk(edges, w) && w[0] == b && w[|w| - 1] == c;
    ReachesAlongWalk(edges, a, w, |w| - 1);
  }

  /** Every node of a walk from `w[0]` is reached from anything that reaches `w[0]`. */
  lemma {:induction false} ReachesAlongWalk(edges: seq<Edge>, a: int, w: seq<int>, n: nat)
    requires IsWalk(edges, w) && n < |w| && Reaches(edges, a, w[0])
    ensures Reaches(edges, a, w[n])
  {
    if n > 0 {
      ReachesAlongWalk(edges, a, w, n - 1);
      ReachesStep(edges, a, w[n - 1], w[n]);
    }
  }

  /** One step or more is: zero steps or more, then the last edge. */
  lemma {:induction false} ReachesPlusLastEdge(edges: seq<Edge>, a: int, b: int)
    ensures ReachesPlus(edges, a, b) <==> exists i :: 0 <= i < |edges| && edges[i].to == b && Reaches(edges, a, edges[i].from)
  {
    if ReachesPlus(edges, a, b) {
      var w :| IsWalk(edges, w) && |w| >= 2 && w[0] == a && w[|w| - 1] == b;
      var p := w[..|w| - 1];
      assert IsWalk(edges, p);
      var e := Edge(w[|w| - 2], b);
      assert e in edges;
      var i :| 0 <= i < |edges| && edges[i] == e;
      assert Reaches(edges, a, edges[i].from);
    }
    if exists i :: 0 <= i < |edges| && edges[i].to == b && Reaches(edges, a, edges[i].from) {
      var i :| 0 <= i < |edges| && edges[i].to == b && Reaches(edges, a, edges[i].from);
      ReachesStep(edges, a, edges[i].from, b);
    }
  }

  /** Reaching a different employee takes at least one step. */
  lemma ReachesDistinct(edges: seq<Edge>, a: int, b: int)
    requires Reaches(edges, a, b) && a != b
    ensures ReachesPlus(edges, a, b)
  {
    var w :| IsWalk(edges, w) && w[0] == a && w[|w| - 1] == b;
    assert |w| >= 2;
  }

  // ---------------------------------------------------------------------------------------
  // The recursive closure computed by the query

  /** Every subordinate id in the table. */
  function Targets(edges: seq<Edge>): set<int> {
    set e | e in edges :: e.to
  }

  /** The direct subordinates of the ids in `r`. */
  function Successors(edges: seq<Edge>, r: set<int>): set<int> {
    set e | e in edges && e.from in r :: e.to
  }

  /** Adds subordinates to `r` until nothing new is reached. */
  function Closure(edges: seq<Edge>, r: set<int>): (c: set<int>)
    ensures r <= c
    ensures Successors(edges, c) <= c
    ensures c <= r + Targets(edges)
    decreases |Targets(edges) - r|
  {
    var added := Successors(edges, r) - r;
    if added == {} then r
    else
      assert added <= Targets(edges) - r;
      assert Targets(edges) - r == (Targets(edges) - (r + added)) + added;
      Closure(edges, r + added)
  }

  lemma {:induction false} ClosureSound(edges: seq<Edge>, root: int, r: set<int>)
    requires forall v :: v in r ==> Reaches(edges, root, v)
    ensures forall v :: v in Closure(edges, r) ==> Reaches(edges, root, v)
    decreases |Targets(edges) - r|
  {
    var added := Successors(edges, r) - r;
    if added != {} {
      forall v | v in added ensures Reaches(edges, root, v) {
        var e :| e in edges && e.from in r && e.to == v;
        ReachesStep(edges, root, e.from, v);
      }
      assert Targets(edges) - r == (Targets(edges) - (r + added)) + added;
      ClosureSound(edges, root, r + added);
    }
  }

  /** A set closed under the edges contains every walk that starts in it. */
  lemma {:induction false} ClosedContainsWalk(edges: seq<Edge>, c: set<int>, w: seq<int>, n: nat)
    requires Successors(edges, c) <= c && IsWalk(edges, w) && w[0] in c && n < |w|
    ensures w[n] in c
  {
    if n > 0 {
      ClosedContainsWalk(edges, c, w, n - 1);
      var e := Edge(w[n - 1], w[n]);
      assert e in edges && e.from in c;
      assert w[n] in Successors(edges, c);
    }
  }

  /** The ids reached from `root`, `root` included. */
  function ReachableFrom(edges: seq<Edge>, root: int): (c: set<int>)
    ensures forall v :: v in c <==> Reaches(edges, root, v)
  {
    var c := Closure(edges, {root});
    ReachesRefl(edges, root);
    ClosureSound(edges, root, {root});
    forall v | Reaches(edges, root, v) ensures v in c {
      var w :| IsWalk(edges, w) && w[0] == root && w[|w| - 1] == v;
      ClosedContainsWalk(edges, c, w, |w| - 1);
    }
    c
  }

  // ---------------------------------------------------------------------------------------
  // The repository's queries

  /** findByFromEmployeeId: the edges `from` supervises, in store order. */
  function FindByFromEmployeeId(edges: seq<Edge>, from: int): (r: seq<Edge>)
    ensures forall e :: e in r <==> e in edges && e.from == from
    ensures forall k :: 0 <= k < |r| ==> r[k].from == from
  {
    Filter(edges, (e: Edge) => e.from == from)
  }

  /** findSupervisorByEmployeeId: the supervisor of `to`, null when it has none. */
  function FindSupervisorByEmployeeId(edges: seq<Edge>, to: int): (r: Option<int>)
    ensures r.None? <==> forall k :: 0 <= k < |edges| ==> edges[k].to != to
    ensures r.Some? ==> Edge(r.value, to) in edges
    ensures r.Some? && SingleParent(edges) ==> forall e :: e in edges && e.to == to ==> e.from == r.value
    decreases |edges|
  {
    if edges == [] then None
    else if edges[0].to == to then Some(edges[0].from)
    else
      var r := FindSupervisorByEmployeeId(edges[1..], to);
      assert forall k :: 1 <= k < |edges| ==> edges[k] == edges[1..][k - 1];
      r
  }

  /** findSubtreeByEmployeeId: every edge whose supervisor is `root` or lies under `root`.
      The query has no ORDER BY; the model keeps store order. */
  function FindSubtreeByEmployeeId(edges: seq<Edge>, root: int): (r: seq<Edge>)
    ensures forall e :: e in r <==> e in edges && Reaches(edges, root, e.from)
    ensures forall e :: multiset(r)[e] == if Reaches(edges, root, e.from) then multiset(edges)[e] else 0
  {
    var c := ReachableFrom(edges, root);
    var r := Filter(edges, (e: Edge) => e.from in c);
    forall e ensures multiset(r)[e] == if Reaches(edges, root, e.from) then multiset(edges)[e] else 0 {
      FilterMultiset(edges, (e: Edge) => e.from in c, e);
    }
    r
  }

  /** existsByEmployeeId: `id` is an endpoint of some edge. */
  function ExistsByEmployeeId(edges: seq<Edge>, id: int): (r: bool)
    ensures r <==> exists k :: 0 <= k < |edges| && (edges[k].from == id || edges[k].to == id)
    decreases |edges|
  {
    if edges == [] then false
    else
      var rest := ExistsByEmployeeId(edges[1..], id);
      assert forall k :: 1 <= k < |edges| ==> edges[k] == edges[1..][k - 1];
      edges[0].from == id || edges[0].to == id || rest
  }

  /** The ids of the subordinates of `from`, in the order of its edges. */
  function SubordinateIds(edges: seq<Edge>, from: int): (r: seq<int>)
    ensures |r| == |FindByFromEmployeeId(edges, from)|
  {
    var s := FindByFromEmployeeId(edges, from);
    seq(|s|, k requires 0 <= k < |s| => s[k].to)
  }

  // ---------------------------------------------------------------------------------------
  // The recursive query as written, level by level

  /** One round of the recursive member of the query: for each row of the previous round, in
      order, the edges its subordinate supervises (UNION ALL keeps every copy). */
  function NextLevel(edges: seq<Edge>, level: seq<Edge>): (r: seq<Edge>)
    ensures forall e :: e in r <==> e in edges && exists k :: 0 <= k < |level| && level[k].to == e.from
    decreases |level|
  {
    if level == [] then []
    else
      var init := level[..|level| - 1];
      var r := NextLevel(edges, init) + FindByFromEmployeeId(edges, level[|level| - 1].to);
      assert forall k :: 0 <= k < |init| ==> init[k] == level[k];
      r
  }

  /** Every row of `level` is a stored edge. */
  ghost predicate RowsStored(edges: seq<Edge>, level: seq<Edge>) {
    forall e :: e in level ==> e in edges
  }

  /** The rows the query derives in round `n`: the anchor rows in round 0, then one round of
      the recursive member each. The database stops only at a round that derives nothing,
      or at its recursion cap with an error. */
  function CteLevel(edges: seq<Edge>, root: int, n: nat): (r: seq<Edge>)
    ensures RowsStored(edges, r)
  {
    if n == 0 then FindByFromEmployeeId(edges, root)
    else NextLevel(edges, CteLevel(edges, root, n - 1))
  }

  /** Every row of `level` is an edge whose supervisor lies under (or is) `root`. */
  ghost predicate RowsUnder(edges: seq<Edge>, root: int, level: seq<Edge>) {
    forall e :: e in level ==> e in edges && Reaches(edges, root, e.from)
  }

  /** Every row any round derives is an edge of the subtree. */
  lemma CteLevelInSubtree(edges: seq<Edge>, root: int, n: nat)
    ensures forall e :: e in CteLevel(edges, root, n) ==> e in FindSubtreeByEmployeeId(edges, root)
  {
    CteLevelReached(edges, root, n);
  }

  lemma {:induction false} CteLevelReached(edges: seq<Edge>, root: int, n: nat)
    ensures RowsUnder(edges, root, CteLevel(edges, root, n))
  {
    if n == 0 {
      ReachesRefl(edges, root);
    } else {
      CteLevelReached(edges, root, n - 1);
      NextLevelReached(edges, root, CteLevel(edges, root, n - 1));
    }
  }

  /** One round keeps every derived row under the root. */
  lemma NextLevelReached(edges: seq<Edge>, root: int, prev: seq<Edge>)
    requires RowsUnder(edges, root, prev)
    ensures RowsUnder(edges, root, NextLevel(edges, prev))
  {
    forall e | e in NextLevel(edges, prev) ensures Reaches(edges, root, e.from) {
      var k :| 0 <= k < |prev| && prev[k].to == e.from;
      assert prev[k] in prev;
      ReachesStep(edges, root, prev[k].from, prev[k].to);
    }
  }

  /** A self-edge under the root is derived again in every round: the query never ends, or
      fails where the database caps recursion. */
  lemma {:induction false} SelfEdgeInEveryLevel(edges: seq<Edge>, x: int, n: nat)
    requires Edge(x, x) in edges
    ensures Edge(x, x) in CteLevel(edges, x, n)
  {
    if n > 0 {
      SelfEdgeInEveryLevel(edges, x, n - 1);
      var prev := CteLevel(edges, x, n - 1);
      var k :| 0 <= k < |prev| && prev[k] == Edge(x, x);
    }
  }

  // ---------------------------------------------------------------------------------------
  // Properties of the queries

  /** The subtree never starts at the root itself: a root with no outgoing edge has an empty
      subtree, and otherwise the subtree starts with the root's own edges. */
  lemma SubtreeOfLeafIsEmpty(edges: seq<Edge>, root: int)
    ensures FindSubtreeByEmployeeId(edges, root) == [] <==> FindByFromEmployeeId(edges, root) == []
  {
    var s := FindSubtreeByEmployeeId(edges, root);
    var d := FindByFromEmployeeId(edges, root);
    ReachesRefl(edges, root);
    if d != [] {
      assert d[0] in edges && d[0].from == root;
      assert d[0] in s;
    }
    if d == [] {
      // nothing leaves the root, so the root is the only id reached
      var c := ReachableFrom(edges, root);
      assert Successors(edges, {root}) <= {root};
      forall v | v in c ensures v == root {
        var w :| IsWalk(edges, w) && w[0] == root && w[|w| - 1] == v;
        ClosedContainsWalk(edges, {root}, w, |w| - 1);
      }
      FilterCongruent(edges, (e: Edge) => e.from in c, (e: Edge) => e.from == root);
    }
  }

  /** The subtree's edges out of any employee lying under the root are exactly that employee's
      edges in the table, in the same order; no other employee has edges in it. */
  lemma SubordinatesWithinSubtree(edges: seq<Edge>, root: int, x: int)
    ensures Reaches(edges, root, x) ==>
      FindByFromEmployeeId(FindSubtreeByEmployeeId(edges, root), x) == FindByFromEmployeeId(edges, x)
    ensures !Reaches(edges, root, x) ==> FindByFromEmployeeId(FindSubtreeByEmployeeId(edges, root), x) == []
  {
    var c := ReachableFrom(edges, root);
    var inC := (e: Edge) => e.from in c;
    var isX := (e: Edge) => e.from == x;
    if Reaches(edges, root, x) {
      FilterFilter(edges, inC, isX, isX);
    } else {
      var none := (e: Edge) => false;
      FilterFilter(edges, inC, isX, (e: Edge) => e.from in c && e.from == x);
      FilterCongruent(edges, (e: Edge) => e.from in c && e.from == x, none);
      NothingPasses(edges);
    }
  }

  lemma {:induction false} NothingPasses(edges: seq<Edge>)
    ensures Filter(edges, (e: Edge) => false) == []
    decreases |edges|
  {
    if edges != [] {
      NothingPasses(edges[1..]);
    }
  }

  /** An employee with a supervisor in a single-parent table: the supervisor is unique. */
  lemma SupervisorIsUnique(edges: seq<Edge>, s: int, t: int)
    requires SingleParent(edges) && Edge(s, t) in edges
    ensures FindSupervisorByEmployeeId(edges, t) == Some(s)
  {
  }

  /** Saving edge (1, 2) into an empty table: 1's subordinates are that one edge and 2's
      supervisor is 1. */
  lemma SaveThenQuery()
    ensures FindByFromEmployeeId([Edge(1, 2)], 1) == [Edge(1, 2)]
    ensures FindSupervisorByEmployeeId([Edge(1, 2)], 2) == Some(1)
    ensures ExistsByEmployeeId([Edge(1, 2)], 1)
  {
    assert [Edge(1, 2)][1..] == [];
  }
}
