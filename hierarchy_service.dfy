/** The employee hierarchy service: queries delegated to the repository, the materialised tree
    of a subtree, and the guarded insert and delete of a supervisor edge. The table is the
    `edges` field of the service object; `save` appends to it and `delete` removes a row. */
module HierarchyService {
  import opened Base
  import opened Seqs
  import opened HierarchyRepository
  import CompanyEmployees

  /** A node of the materialised tree: an employee id and its (mutable) list of children. */
  class EmployeeNode {
    const id: int
    var children: seq<EmployeeNode>

    constructor (id: int)
      ensures this.id == id && children == []
    {
      this.id := id;
      children := [];
    }
  }

  /** The ids of the employees that take part in some edge of `s`. */
  function Endpoints(s: seq<Edge>): set<int> {
    (set e | e in s :: e.from) + (set e | e in s :: e.to)
  }

  lemma EndpointsAppend(s: seq<Edge>, e: Edge)
    ensures Endpoints(s + [e]) == Endpoints(s) + {e.from, e.to}
  {
    assert forall x :: x in s + [e] <==> x in s || x == e;
  }

  /** Adding edge (supervisorId, employeeId), when employeeId has no supervisor and does not
      already reach supervisorId, keeps the table acyclic and single-parent. */
  lemma {:induction false} AddKeepsForest(edges: seq<Edge>, supervisorId: int, employeeId: int)
    requires Acyclic(edges) && SingleParent(edges)
    requires supervisorId != employeeId
    requires FindSupervisorByEmployeeId(edges, employeeId).None?
    requires !ReachesPlus(edges, employeeId, supervisorId)
    ensures Acyclic(edges + [Edge(supervisorId, employeeId)])
    ensures SingleParent(edges + [Edge(supervisorId, employeeId)])
  {
    var e' := edges + [Edge(supervisorId, employeeId)];
    forall a ensures !ReachesPlus(e', a, a) {
      NoCycleAfterAdd(edges, supervisorId, employeeId, a);
    }
  }

  lemma {:induction false} NoCycleAfterAdd(edges: seq<Edge>, s: int, t: int, a: int)
    requires Acyclic(edges)
    requires s != t
    requires !ReachesPlus(edges, t, s)
    ensures !ReachesPlus(edges + [Edge(s, t)], a, a)
  {
    var e' := edges + [Edge(s, t)];
    ReachesPlusLastEdge(e', a, a);
    if ReachesPlus(e', a, a) {
      var i :| 0 <= i < |e'| && e'[i].to == a && Reaches(e', a, e'[i].from);
      var x := e'[i];
      WalkInExtension(edges, s, t, a, x.from);
      if i < |edges| {
        assert x in edges;
        if Reaches(edges, a, x.from) {
          ReachesStep(edges, a, x.from, a);
        } else {
          // t reaches x.from, x leads on to a, and a reaches s: t reaches s
          ReachesStep(edges, t, x.from, a);
          ReachesTrans(edges, t, a, s);
          ReachesDistinct(edges, t, s);
        }
      } else {
        assert x == Edge(s, t) && a == t;
        ReachesDistinct(edges, t, s);
      }
      assert false;
    }
  }

  /** A walk in the table with edge (s, t) added either avoids that edge or passes through it:
      in the second case its start reaches s and t reaches its end without the new edge. */
  lemma {:induction false} WalkInExtension(edges: seq<Edge>, s: int, t: int, a: int, b: int)
    requires Reaches(edges + [Edge(s, t)], a, b)
    ensures Reaches(edges, a, b) || (Reaches(edges, a, s) && Reaches(edges, t, b))
  {
    var e' := edges + [Edge(s, t)];
    var w :| IsWalk(e', w) && w[0] == a && w[|w| - 1] == b;
    WalkPrefixInExtension(edges, s, t, w, |w| - 1);
  }

  lemma {:induction false} WalkPrefixInExtension(edges: seq<Edge>, s: int, t: int, w: seq<int>, n: nat)
    requires IsWalk(edges + [Edge(s, t)], w) && n < |w|
    ensures Reaches(edges, w[0], w[n]) || (Reaches(edges, w[0], s) && Reaches(edges, t, w[n]))
  {
    var e' := edges + [Edge(s, t)];
    if n == 0 {
      ReachesRefl(edges, w[0]);
    } else {
      WalkPrefixInExtension(edges, s, t, w, n - 1);
      var step := Edge(w[n - 1], w[n]);
      assert step in e';
      if step in edges {
        if Reaches(edges, w[0], w[n - 1]) {
          ReachesStep(edges, w[0], w[n - 1], w[n]);
        } else {
          ReachesStep(edges, t, w[n - 1], w[n]);
        }
      } else {
        assert step == Edge(s, t);
        ReachesRefl(edges, t);
        if Reaches(edges, w[0], w[n - 1]) {
          assert w[n - 1] == s;
        }
      }
    }
  }

  /** Deleting an edge keeps the table acyclic and single-parent. */
  lemma RemoveKeepsForest(edges: seq<Edge>, i: nat)
    requires i < |edges|
    requires Acyclic(edges) && SingleParent(edges)
    ensures Acyclic(RemoveAt(edges, i)) && SingleParent(RemoveAt(edges, i))
  {
    var r := RemoveAt(edges, i);
    forall a | ReachesPlus(r, a, a) ensures ReachesPlus(edges, a, a) {
      var w :| IsWalk(r, w) && |w| >= 2 && w[0] == a && w[|w| - 1] == a;
      assert forall x :: x in r ==> x in edges;
      assert IsWalk(edges, w);
    }
    forall j, k | 0 <= j < |r| && 0 <= k < |r| && r[j].to == r[k].to ensures j == k {
      var j' := if j < i then j else j + 1;
      var k' := if k < i then k else k + 1;
      assert edges[j'] == r[j] && edges[k'] == r[k];
    }
  }

  /** The node of `x` has one child per edge of `s` leaving `x`: the nodes of those edges'
      subordinates, in the order of the edges in `s`. */
  ghost predicate LinkedAt(m: map<int, EmployeeNode>, s: seq<Edge>, x: int)
    reads m.Values
  {
    var ids := SubordinateIds(s, x);
    x in m ==>
      |m[x].children| == |ids| &&
      forall k :: 0 <= k < |ids| ==> ids[k] in m && m[x].children[k] == m[ids[k]]
  }

  ghost predicate Linked(m: map<int, EmployeeNode>, s: seq<Edge>)
    reads m.Values
  {
    forall x {:trigger LinkedAt(m, s, x)} :: x in m ==> LinkedAt(m, s, x)
  }

  /** The step `supervisorNode.getChildren().add(subordinateNode)` of the fold: it changes
      only the supervisor's node and links the table for one more edge. */
  method AddChild(ghost m: map<int, EmployeeNode>, ghost s: seq<Edge>, ghost e: Edge,
                  supervisorNode: EmployeeNode, subordinateNode: EmployeeNode)
    requires e.from in m && e.to in m && supervisorNode == m[e.from] && subordinateNode == m[e.to]
    requires forall x :: x in m ==> m[x].id == x
    requires Linked(m, s)
    modifies supervisorNode
    ensures supervisorNode.children == old(supervisorNode.children) + [subordinateNode]
    ensures Linked(m, s + [e])
  {
    supervisorNode.children := supervisorNode.children + [subordinateNode];
    forall x | x in m ensures LinkedAt(m, s + [e], x) {
      SubordinateIdsAppend(s, e, x);
      assert old(LinkedAt(m, s, x));
    }
  }

  /** Adding childless nodes for ids that no edge of `s` mentions keeps the table linked. */
  lemma LinkedGrows(m: map<int, EmployeeNode>, m': map<int, EmployeeNode>, s: seq<Edge>)
    requires m.Keys == Endpoints(s) && m.Keys <= m'.Keys
    requires forall x :: x in m ==> m'[x] == m[x]
    requires forall x :: x in m' && x !in m ==> m'[x].children == []
    requires Linked(m, s)
    ensures Linked(m', s)
  {
    forall x | x in m' ensures LinkedAt(m', s, x) {
      if x in m {
        assert LinkedAt(m, s, x);
        NotEndpointHasNoSubordinates(s, x);
      } else {
        NotEndpointHasNoSubordinates(s, x);
      }
    }
  }

  /** The subordinates of `x` are endpoints of `s`, and an id outside them has none. */
  lemma NotEndpointHasNoSubordinates(s: seq<Edge>, x: int)
    ensures forall k :: 0 <= k < |SubordinateIds(s, x)| ==> SubordinateIds(s, x)[k] in Endpoints(s)
    ensures x !in Endpoints(s) ==> SubordinateIds(s, x) == []
  {
    var f := FindByFromEmployeeId(s, x);
    forall k | 0 <= k < |f| ensures f[k].to in Endpoints(s) {
      assert f[k] in f;
    }
    if f != [] {
      assert f[0] in f;
    }
  }

  /** The fold of buildEmployeeTree over a list of edges: one node per id (created on its
      first occurrence), each edge appending its subordinate's node to its supervisor's
      children. `nodes` is the id -> node table the fold builds; the result is the root's node,
      or null when no edge mentions the root. */
  method AssembleTree(allSubordinates: seq<Edge>, rootEmployeeId: int) returns (root: EmployeeNode?, ghost nodes: map<int, EmployeeNode>)
    ensures nodes.Keys == Endpoints(allSubordinates)
    ensures forall x :: x in nodes ==> fresh(nodes[x]) && nodes[x].id == x
    ensures Linked(nodes, allSubordinates)
    ensures root == if rootEmployeeId in nodes then nodes[rootEmployeeId] else null
  {
    var employeeNodeMap: map<int, EmployeeNode> := map[];
    for i := 0 to |allSubordinates|
      invariant employeeNodeMap.Keys == Endpoints(allSubordinates[..i])
      invariant forall x :: x in employeeNodeMap ==> fresh(employeeNodeMap[x])
      invariant forall x :: x in employeeNodeMap ==> employeeNodeMap[x].id == x
      invariant Linked(employeeNodeMap, allSubordinates[..i])
    {
      var hierarchy := allSubordinates[i];
      ghost var prefix := allSubordinates[..i];
      assert allSubordinates[..i + 1] == prefix + [hierarchy];
      EndpointsAppend(prefix, hierarchy);
      ghost var before := employeeNodeMap;
      if hierarchy.from !in employeeNodeMap {
        var node := new EmployeeNode(hierarchy.from);
        employeeNodeMap := employeeNodeMap[hierarchy.from := node];
      }
      if hierarchy.to !in employeeNodeMap {
        var node := new EmployeeNode(hierarchy.to);
        employeeNodeMap := employeeNodeMap[hierarchy.to := node];
      }
      LinkedGrows(before, employeeNodeMap, prefix);
      var supervisorNode := employeeNodeMap[hierarchy.from];
      var subordinateNode := employeeNodeMap[hierarchy.to];
      AddChild(employeeNodeMap, prefix, hierarchy, supervisorNode, subordinateNode);
    }
    assert allSubordinates[..|allSubordinates|] == allSubordinates;
    nodes := employeeNodeMap;
    root := if rootEmployeeId in employeeNodeMap then employeeNodeMap[rootEmployeeId] else null;
  }

  /** The hierarchy service over the employee_hierarchy table. */
  class EmployeeHierarchyService {
    var edges: seq<Edge>

    constructor ()
      ensures edges == []
    {
      edges := [];
    }

    /** getSubordinates: the edges whose supervisor is `fromEmployeeId`, in store order. */
    function GetSubordinates(fromEmployeeId: int): (r: seq<Edge>)
      reads this
      ensures r == FindByFromEmployeeId(edges, fromEmployeeId)
      ensures forall e :: e in r <==> e in edges && e.from == fromEmployeeId
    {
      FindByFromEmployeeId(edges, fromEmployeeId)
    }

    /** getSupervisor: the supervisor of `toEmployeeId`, or null. */
    function GetSupervisor(toEmployeeId: int): (r: Option<int>)
      reads this
      ensures r == FindSupervisorByEmployeeId(edges, toEmployeeId)
      ensures r.None? <==> forall e :: e in edges ==> e.to != toEmployeeId
      ensures r.Some? ==> Edge(r.value, toEmployeeId) in edges
    {
      FindSupervisorByEmployeeId(edges, toEmployeeId)
    }

    /** getSubtree: every edge below `employeeId`. */
    function GetSubtree(employeeId: int): (r: seq<Edge>)
      reads this
      ensures r == FindSubtreeByEmployeeId(edges, employeeId)
      ensures forall e :: e in r <==> e in edges && Reaches(edges, employeeId, e.from)
    {
      FindSubtreeByEmployeeId(edges, employeeId)
    }

    /** employeeExists: the employee belongs to the current company. The `Long` id is narrowed
        with Math.toIntExact, which throws outside the `int` range. */
    function EmployeeExists(members: CompanyEmployees.CompanyEmployeesService, company: string, employeeId: int): (r: Outcome<bool>)
      reads members
      ensures r.Thrown? <==> !InInt32Range(employeeId)
      ensures r.Returned? ==> (r.value <==> exists k :: 0 <= k < |members.rows| && members.rows[k].companyUsername == company && members.rows[k].employeeId == employeeId)
    {
      if InInt32Range(employeeId) then Returned(members.VerifyIfEmployeeInCompany(company, employeeId))
      else Thrown(Arithmetic)
    }

    /** buildEmployeeTree: the tree of the subtree edges below `rootEmployeeId`. */
    method BuildEmployeeTree(rootEmployeeId: int) returns (root: EmployeeNode?, ghost nodes: map<int, EmployeeNode>)
      ensures nodes.Keys == Endpoints(FindSubtreeByEmployeeId(edges, rootEmployeeId))
      ensures forall x :: x in nodes ==> fresh(nodes[x]) && nodes[x].id == x
      ensures Linked(nodes, FindSubtreeByEmployeeId(edges, rootEmployeeId))
      ensures root == if rootEmployeeId in nodes then nodes[rootEmployeeId] else null
      ensures root == null <==> FindSubtreeByEmployeeId(edges, rootEmployeeId) == []
    {
      var allSubordinates := FindSubtreeByEmployeeId(edges, rootEmployeeId);
      RootOfNonEmptySubtree(edges, rootEmployeeId);
      root, nodes := AssembleTree(allSubordinates, rootEmployeeId);
    }

    /** createsCycleUsingSubtree: some edge of the subtree of `supervisorId` leads to
        `employeeId`, that is, `employeeId` already lies under `supervisorId`. */
    method CreatesCycleUsingSubtree(supervisorId: int, employeeId: int) returns (cycle: bool)
      ensures cycle <==> ReachesPlus(edges, supervisorId, employeeId)
    {
      var supervisorSubtree := FindSubtreeByEmployeeId(edges, supervisorId);
      SubtreeLeadsTo(edges, supervisorId, employeeId);
      for i := 0 to |supervisorSubtree|
        invariant forall k :: 0 <= k < i ==> supervisorSubtree[k].to != employeeId
      {
        if supervisorSubtree[i].to == employeeId {
          return true;
        }
      }
      return false;
    }

    /** addEmployeeSupervisorEdge: rejects an employee that already has a supervisor, then
        an edge either end of which already lies under the other, and otherwise saves the
        edge. */
    method AddEmployeeSupervisorEdge(supervisorId: int, employeeId: int) returns (added: bool)
      modifies this
      ensures added <==>
        && FindSupervisorByEmployeeId(old(edges), employeeId).None?
        && !ReachesPlus(old(edges), supervisorId, employeeId)
        && !ReachesPlus(old(edges), employeeId, supervisorId)
      ensures edges == if added then old(edges) + [Edge(supervisorId, employeeId)] else old(edges)
      ensures added ==> FindSupervisorByEmployeeId(edges, employeeId) == Some(supervisorId)
      ensures added && Acyclic(old(edges)) && SingleParent(old(edges)) && supervisorId != employeeId ==>
        Acyclic(edges) && SingleParent(edges)
    {
      var existingSupervisor := FindSupervisorByEmployeeId(edges, employeeId);
      if existingSupervisor.Some? {
        return false;
      }
      var down := CreatesCycleUsingSubtree(supervisorId, employeeId);
      var up := CreatesCycleUsingSubtree(employeeId, supervisorId);
      if down || up {
        return false;
      }
      NewEdgeIsFound(edges, supervisorId, employeeId);
      if Acyclic(edges) && SingleParent(edges) && supervisorId != employeeId {
        AddKeepsForest(edges, supervisorId, employeeId);
      }
      edges := edges + [Edge(supervisorId, employeeId)];
      return true;
    }

    /** addEmployeeSupervisorEdge as evidently intended: a self-edge is refused like any
        other cycle, so an acyclic single-parent table stays so on every add. */
    method AddEmployeeSupervisorEdgeNoSelf(supervisorId: int, employeeId: int) returns (added: bool)
      modifies this
      ensures added <==>
        && supervisorId != employeeId
        && FindSupervisorByEmployeeId(old(edges), employeeId).None?
        && !ReachesPlus(old(edges), supervisorId, employeeId)
        && !ReachesPlus(old(edges), employeeId, supervisorId)
      ensures edges == if added then old(edges) + [Edge(supervisorId, employeeId)] else old(edges)
      ensures Acyclic(old(edges)) && SingleParent(old(edges)) ==> Acyclic(edges) && SingleParent(edges)
    {
      if supervisorId == employeeId {
        return false;
      }
      added := AddEmployeeSupervisorEdge(supervisorId, employeeId);
    }

    /** removeEmployeeSupervisorEdge: looks up the employee's supervisor, then walks the
        supervisor's edges and deletes the first one leading to the employee. */
    method RemoveEmployeeSupervisorEdge(employeeId: int) returns (removed: bool)
      modifies this
      ensures removed <==> FindSupervisorByEmployeeId(old(edges), employeeId).Some?
      ensures !removed ==> edges == old(edges)
      ensures removed ==>
        var e := Edge(FindSupervisorByEmployeeId(old(edges), employeeId).value, employeeId);
        var i := IndexOf(old(edges), e);
        0 <= i && edges == RemoveAt(old(edges), i)
      ensures Acyclic(old(edges)) && SingleParent(old(edges)) ==>
        Acyclic(edges) && SingleParent(edges) && FindSupervisorByEmployeeId(edges, employeeId).None?
    {
      var supervisorId := FindSupervisorByEmployeeId(edges, employeeId);
      if supervisorId.None? {
        return false;
      }
      var candidates := FindByFromEmployeeId(edges, supervisorId.value);
      assert Edge(supervisorId.value, employeeId) in candidates;
      for i := 0 to |candidates|
        invariant forall k :: 0 <= k < i ==> candidates[k].to != employeeId
      {
        if candidates[i].to == employeeId {
          var edge := candidates[i];
          var index := IndexOf(edges, edge);
          ghost var was := edges;
          if Acyclic(edges) && SingleParent(edges) {
            RemoveKeepsForest(edges, index);
            RemovedParentIsGone(edges, index);
          }
          edges := RemoveAt(edges, index);
          return true;
        }
      }
      // the supervisor's own edge to the employee is among its edges
      assert false;
      return false;
    }
  }

  /** The guard of addEmployeeSupervisorEdge lets a self-edge (x, x) through whenever x has
      no supervisor. The table is then cyclic, and every round of the subtree query on x
      derives the edge again, so that query, and every method that runs it on x, never ends (or fails where the database caps recursion). */
  lemma SelfEdgeAccepted(edges: seq<Edge>, x: int)
    requires FindSupervisorByEmployeeId(edges, x).None?
    ensures !ReachesPlus(edges, x, x)
    ensures !Acyclic(edges + [Edge(x, x)])
    ensures forall n: nat :: Edge(x, x) in CteLevel(edges + [Edge(x, x)], x, n)
  {
    ReachesPlusLastEdge(edges, x, x);
    var t := edges + [Edge(x, x)];
    assert IsWalk(t, [x, x]);
    assert ReachesPlus(t, x, x);
    forall n: nat ensures Edge(x, x) in CteLevel(t, x, n) {
      SelfEdgeInEveryLevel(t, x, n);
    }
  }

  /** The root takes part in its subtree exactly when the subtree has an edge. */
  lemma RootOfNonEmptySubtree(edges: seq<Edge>, root: int)
    ensures root in Endpoints(FindSubtreeByEmployeeId(edges, root)) <==> FindSubtreeByEmployeeId(edges, root) != []
  {
    var s := FindSubtreeByEmployeeId(edges, root);
    SubtreeOfLeafIsEmpty(edges, root);
    if s != [] {
      var d := FindByFromEmployeeId(edges, root);
      assert d[0] in edges && d[0].from == root;
      ReachesRefl(edges, root);
      assert d[0] in s;
    }
  }

  /** Some edge of the subtree of `a` leads to `b` exactly when `b` lies (strictly) under `a`. */
  lemma SubtreeLeadsTo(edges: seq<Edge>, a: int, b: int)
    ensures var subtree := FindSubtreeByEmployeeId(edges, a);
      ReachesPlus(edges, a, b) <==> exists k :: 0 <= k < |subtree| && subtree[k].to == b
  {
    var subtree := FindSubtreeByEmployeeId(edges, a);
    ReachesPlusLastEdge(edges, a, b);
    if ReachesPlus(edges, a, b) {
      var i :| 0 <= i < |edges| && edges[i].to == b && Reaches(edges, a, edges[i].from);
      assert edges[i] in subtree;
    }
    if exists k :: 0 <= k < |subtree| && subtree[k].to == b {
      var k :| 0 <= k < |subtree| && subtree[k].to == b;
      assert subtree[k] in edges;
    }
  }

  /** One more edge adds its subordinate to the end of its supervisor's list. */
  lemma SubordinateIdsAppend(s: seq<Edge>, e: Edge, x: int)
    ensures SubordinateIds(s + [e], x) == SubordinateIds(s, x) + (if e.from == x then [e.to] else [])
  {
    FilterAppend(s, [e], (d: Edge) => d.from == x);
    if e.from == x {
      assert Filter([e], (d: Edge) => d.from == x) == [e];
    } else {
      assert Filter([e], (d: Edge) => d.from == x) == [];
    }
  }

  /** After a successful insert the new edge gives the employee's supervisor. */
  lemma NewEdgeIsFound(edges: seq<Edge>, s: int, t: int)
    requires FindSupervisorByEmployeeId(edges, t).None?
    ensures FindSupervisorByEmployeeId(edges + [Edge(s, t)], t) == Some(s)
    decreases |edges|
  {
    if edges != [] {
      assert (edges + [Edge(s, t)])[1..] == edges[1..] + [Edge(s, t)];
      assert FindSupervisorByEmployeeId(edges[1..], t).None?;
      NewEdgeIsFound(edges[1..], s, t);
    }
  }

  /** In a single-parent table, deleting the employee's edge leaves it without a supervisor. */
  lemma RemovedParentIsGone(edges: seq<Edge>, i: nat)
    requires i < |edges| && SingleParent(edges)
    ensures FindSupervisorByEmployeeId(RemoveAt(edges, i), edges[i].to).None?
  {
    var r := RemoveAt(edges, i);
    forall k | 0 <= k < |r| ensures r[k].to != edges[i].to {
      var k' := if k < i then k else k + 1;
      assert edges[k'] == r[k];
    }
  }
}
