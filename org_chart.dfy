/**
 * The organisation chart page: workers grouped by department with a reduce
 * over the worker list, and each worker's supervisor looked up with `find`.
 */
module OrgChart {
  import opened Wrappers
  import opened JsArrays
  import opened JsMaps
  import opened Schema

  /** `{ name, workers }`: one card of the chart. */
  datatype DepartmentGroup = DepartmentGroup(name: string, workers: seq<Worker>)

  /**
   * `acc.find((d) => d.name === department)`, as a position in `acc`: the callback
   * pushes onto the object found, so the model needs where it is, not a copy.
   */
  function FindGroup(acc: seq<DepartmentGroup>, department: string): (r: Option<nat>)
    ensures r.Some? ==> r.value < |acc| && acc[r.value].name == department
    ensures r.Some? ==> forall j :: 0 <= j < r.value ==> acc[j].name != department
    ensures r.None? <==> forall j :: 0 <= j < |acc| ==> acc[j].name != department
  {
    FindIndex(acc, (d: DepartmentGroup) => d.name == department)
  }

  /**
   * The reduce callback: push `w` onto the group of its department when there is
   * one, otherwise push a new group holding only `w`.
   */
  function AddToDepartments(acc: seq<DepartmentGroup>, w: Worker): seq<DepartmentGroup> {
    match FindGroup(acc, w.department)
    case Some(k) => acc[k := DepartmentGroup(acc[k].name, acc[k].workers + [w])]
    case None => acc + [DepartmentGroup(w.department, [w])]
  }

  /** `ws.reduce(AddToDepartments, [])`: the callback applied to each worker in turn. */
  function Departments(ws: seq<Worker>): seq<DepartmentGroup> {
    if ws == [] then [] else AddToDepartments(Departments(ws[..|ws| - 1]), ws[|ws| - 1])
  }

  /** The reduce run as the loop it is, with the accumulator updated in place. */
  method BuildDepartments(ws: seq<Worker>) returns (groups: seq<DepartmentGroup>)
    ensures groups == Departments(ws)
    ensures Grouped(ws, groups)
  {
    groups := [];
    var i := 0;
    while i < |ws|
      invariant 0 <= i <= |ws|
      invariant groups == Departments(ws[..i])
    {
      var w := ws[i];
      var found := FindGroup(groups, w.department);
      if found.Some? {
        var k := found.value;
        groups := groups[k := DepartmentGroup(groups[k].name, groups[k].workers + [w])];
      } else {
        groups := groups + [DepartmentGroup(w.department, [w])];
      }
      assert ws[..i + 1][..i] == ws[..i];
      i := i + 1;
    }
    assert ws[..|ws|] == ws;
    DepartmentsGrouped(ws);
  }

  /** Reference definition of a department's members: `ws.filter((w) => w.department === d)`. */
  function OfDepartment(ws: seq<Worker>, d: string): seq<Worker> {
    if ws == [] then []
    else OfDepartment(ws[..|ws| - 1], d) + (if ws[|ws| - 1].department == d then [ws[|ws| - 1]] else [])
  }

  /** Number of workers over all groups. */
  function TotalSize(g: seq<DepartmentGroup>): nat {
    if g == [] then 0 else TotalSize(g[..|g| - 1]) + |g[|g| - 1].workers|
  }

  /** `new Set(ws.map((w) => w.department))`, whose size the home page shows. */
  function DepartmentNames(ws: seq<Worker>): set<string> {
    set i | 0 <= i < |ws| :: ws[i].department
  }

  ghost predicate DistinctNames(g: seq<DepartmentGroup>) {
    forall a, b :: 0 <= a < b < |g| ==> g[a].name != g[b].name
  }

  /** Each group holds exactly its department's workers, in input order. */
  ghost predicate Members(ws: seq<Worker>, g: seq<DepartmentGroup>) {
    forall k :: 0 <= k < |g| ==> g[k].workers == OfDepartment(ws, g[k].name)
  }

  /** Every worker's department has a group. */
  ghost predicate Covers(ws: seq<Worker>, g: seq<DepartmentGroup>) {
    forall i :: 0 <= i < |ws| ==> exists k :: 0 <= k < |g| && g[k].name == ws[i].department
  }

  /** Every group is named after the department of some worker. */
  ghost predicate Witnessed(ws: seq<Worker>, g: seq<DepartmentGroup>) {
    forall k :: 0 <= k < |g| ==> exists i :: 0 <= i < |ws| && ws[i].department == g[k].name
  }

  /** Some worker of an earlier group comes before every worker of a later group. */
  ghost predicate FirstSeenOrder(ws: seq<Worker>, g: seq<DepartmentGroup>) {
    forall a, b, j :: 0 <= a < b < |g| && 0 <= j < |ws| && ws[j].department == g[b].name ==>
      exists i :: 0 <= i < j && ws[i].department == g[a].name
  }

  /**
   * `g` groups `ws` by department: one group per department, named after it,
   * holding exactly that department's workers in input order, with the groups in
   * order of first appearance.
   */
  ghost predicate Grouped(ws: seq<Worker>, g: seq<DepartmentGroup>) {
    DistinctNames(g) && Members(ws, g) && Covers(ws, g) && Witnessed(ws, g) && FirstSeenOrder(ws, g)
  }

  lemma {:induction false} OfAbsentDepartment(ws: seq<Worker>, d: string)
    requires forall i :: 0 <= i < |ws| ==> ws[i].department != d
    ensures OfDepartment(ws, d) == []
  {
    if ws != [] {
      OfAbsentDepartment(ws[..|ws| - 1], d);
    }
  }

  // One step of the reduce when the last worker's department has no group yet.

  lemma NewMembers(ws: seq<Worker>, g0: seq<DepartmentGroup>)
    requires ws != [] && Members(ws[..|ws| - 1], g0) && Covers(ws[..|ws| - 1], g0)
    requires forall k :: 0 <= k < |g0| ==> g0[k].name != ws[|ws| - 1].department
    ensures Members(ws, g0 + [DepartmentGroup(ws[|ws| - 1].department, [ws[|ws| - 1]])])
  {
    var p, w := ws[..|ws| - 1], ws[|ws| - 1];
    forall i | 0 <= i < |p| ensures p[i].department != w.department {
      var k :| 0 <= k < |g0| && g0[k].name == p[i].department;
    }
    OfAbsentDepartment(p, w.department);
  }

  lemma NewCovers(ws: seq<Worker>, g0: seq<DepartmentGroup>)
    requires ws != [] && Covers(ws[..|ws| - 1], g0)
    ensures Covers(ws, g0 + [DepartmentGroup(ws[|ws| - 1].department, [ws[|ws| - 1]])])
  {
    var n := |ws| - 1;
    var g := g0 + [DepartmentGroup(ws[n].department, [ws[n]])];
    forall i | 0 <= i < |ws| ensures exists k :: 0 <= k < |g| && g[k].name == ws[i].department {
      if i < n {
        assert ws[..n][i] == ws[i];
        var k :| 0 <= k < |g0| && g0[k].name == ws[..n][i].department;
        assert g[k] == g0[k];
      } else {
        assert g[|g0|].name == ws[i].department;
      }
    }
  }

  lemma NewWitnessed(ws: seq<Worker>, g0: seq<DepartmentGroup>)
    requires ws != [] && Witnessed(ws[..|ws| - 1], g0)
    ensures Witnessed(ws, g0 + [DepartmentGroup(ws[|ws| - 1].department, [ws[|ws| - 1]])])
  {
    var n := |ws| - 1;
    var g := g0 + [DepartmentGroup(ws[n].department, [ws[n]])];
    forall k | 0 <= k < |g| ensures exists i :: 0 <= i < |ws| && ws[i].department == g[k].name {
      if k < |g0| {
        var i :| 0 <= i < n && ws[..n][i].department == g0[k].name;
        assert ws[i] == ws[..n][i];
      } else {
        assert ws[n].department == g[k].name;
      }
    }
  }

  /** A department without a group does not occur among the workers already grouped. */
  lemma Unseen(ws: seq<Worker>, g: seq<DepartmentGroup>, d: string)
    requires Covers(ws, g)
    requires forall k :: 0 <= k < |g| ==> g[k].name != d
    ensures forall i :: 0 <= i < |ws| ==> ws[i].department != d
  {
    forall i | 0 <= i < |ws| ensures ws[i].department != d {
      var k :| 0 <= k < |g| && g[k].name == ws[i].department;
    }
  }

  lemma NewOrder(ws: seq<Worker>, g0: seq<DepartmentGroup>)
    requires ws != [] && FirstSeenOrder(ws[..|ws| - 1], g0) && Witnessed(ws[..|ws| - 1], g0)
    requires forall i :: 0 <= i < |ws| - 1 ==> ws[i].department != ws[|ws| - 1].department
    ensures FirstSeenOrder(ws, g0 + [DepartmentGroup(ws[|ws| - 1].department, [ws[|ws| - 1]])])
  {
    var n := |ws| - 1;
    var p := ws[..n];
    var g := g0 + [DepartmentGroup(ws[n].department, [ws[n]])];
    forall a, b, j | 0 <= a < b < |g| && 0 <= j < |ws| && ws[j].department == g[b].name
      ensures exists i :: 0 <= i < j && ws[i].department == g[a].name
    {
      assert g[a] == g0[a];
      if b < |g0| {
        assert g[b] == g0[b];
        assert p[j] == ws[j];
        var i :| 0 <= i < j && p[i].department == g0[a].name;
        assert p[i] == ws[i];
      } else {
        assert j == n;
        var i :| 0 <= i < n && p[i].department == g0[a].name;
        assert p[i] == ws[i];
      }
    }
  }

  // One step of the reduce when the last worker joins the existing group `k`.

  lemma JoinMembers(ws: seq<Worker>, g0: seq<DepartmentGroup>, k: nat)
    requires ws != [] && Members(ws[..|ws| - 1], g0) && DistinctNames(g0)
    requires k < |g0| && g0[k].name == ws[|ws| - 1].department
    ensures Members(ws, g0[k := DepartmentGroup(g0[k].name, g0[k].workers + [ws[|ws| - 1]])])
  {
  }

  lemma JoinCovers(ws: seq<Worker>, g0: seq<DepartmentGroup>, k: nat)
    requires ws != [] && Covers(ws[..|ws| - 1], g0)
    requires k < |g0| && g0[k].name == ws[|ws| - 1].department
    ensures Covers(ws, g0[k := DepartmentGroup(g0[k].name, g0[k].workers + [ws[|ws| - 1]])])
  {
    var n := |ws| - 1;
    var g := g0[k := DepartmentGroup(g0[k].name, g0[k].workers + [ws[n]])];
    forall i | 0 <= i < |ws| ensures exists c :: 0 <= c < |g| && g[c].name == ws[i].department {
      if i < n {
        assert ws[..n][i] == ws[i];
        var c :| 0 <= c < |g0| && g0[c].name == ws[..n][i].department;
        assert g[c].name == g0[c].name;
      } else {
        assert g[k].name == ws[i].department;
      }
    }
  }

  lemma JoinWitnessed(ws: seq<Worker>, g0: seq<DepartmentGroup>, k: nat)
    requires ws != [] && Witnessed(ws[..|ws| - 1], g0)
    requires k < |g0|
    ensures Witnessed(ws, g0[k := DepartmentGroup(g0[k].name, g0[k].workers + [ws[|ws| - 1]])])
  {
    var n := |ws| - 1;
    var g := g0[k := DepartmentGroup(g0[k].name, g0[k].workers + [ws[n]])];
    forall c | 0 <= c < |g| ensures exists i :: 0 <= i < |ws| && ws[i].department == g[c].name {
      var i :| 0 <= i < n && ws[..n][i].department == g0[c].name;
      assert ws[i] == ws[..n][i];
    }
  }

  lemma JoinOrder(ws: seq<Worker>, g0: seq<DepartmentGroup>, k: nat)
    requires ws != [] && FirstSeenOrder(ws[..|ws| - 1], g0) && Witnessed(ws[..|ws| - 1], g0)
    requires k < |g0|
    ensures FirstSeenOrder(ws, g0[k := DepartmentGroup(g0[k].name, g0[k].workers + [ws[|ws| - 1]])])
  {
    var n := |ws| - 1;
    var p := ws[..n];
    var g := g0[k := DepartmentGroup(g0[k].name, g0[k].workers + [ws[n]])];
    forall a, b, j | 0 <= a < b < |g| && 0 <= j < |ws| && ws[j].department == g[b].name
      ensures exists i :: 0 <= i < j && ws[i].department == g[a].name
    {
      assert g[a].name == g0[a].name && g[b].name == g0[b].name;
      if j < n {
        assert p[j] == ws[j];
        var i :| 0 <= i < j && p[i].department == g0[a].name;
        assert p[i] == ws[i];
      } else {
        var i :| 0 <= i < n && p[i].department == g0[a].name;
        assert p[i] == ws[i];
      }
    }
  }

  lemma JoinDistinct(g0: seq<DepartmentGroup>, k: nat, w: Worker)
    requires DistinctNames(g0) && k < |g0|
    ensures DistinctNames(g0[k := DepartmentGroup(g0[k].name, g0[k].workers + [w])])
  {
    var g := g0[k := DepartmentGroup(g0[k].name, g0[k].workers + [w])];
    assert forall c :: 0 <= c < |g| ==> g[c].name == g0[c].name;
  }

  lemma NewDistinct(g0: seq<DepartmentGroup>, w: Worker)
    requires DistinctNames(g0)
    requires forall k :: 0 <= k < |g0| ==> g0[k].name != w.department
    ensures DistinctNames(g0 + [DepartmentGroup(w.department, [w])])
  {
    var g := g0 + [DepartmentGroup(w.department, [w])];
    assert forall c :: 0 <= c < |g0| ==> g[c] == g0[c];
  }

  lemma JoinGrouped(ws: seq<Worker>, g0: seq<DepartmentGroup>, k: nat)
    requires ws != [] && Grouped(ws[..|ws| - 1], g0)
    requires k < |g0| && g0[k].name == ws[|ws| - 1].department
    ensures Grouped(ws, g0[k := DepartmentGroup(g0[k].name, g0[k].workers + [ws[|ws| - 1]])])
  {
    JoinDistinct(g0, k, ws[|ws| - 1]);
    JoinMembers(ws, g0, k);
    JoinCovers(ws, g0, k);
    JoinWitnessed(ws, g0, k);
    JoinOrder(ws, g0, k);
  }

  lemma NewGrouped(ws: seq<Worker>, g0: seq<DepartmentGroup>)
    requires ws != [] && Grouped(ws[..|ws| - 1], g0)
    requires forall k :: 0 <= k < |g0| ==> g0[k].name != ws[|ws| - 1].department
    ensures Grouped(ws, g0 + [DepartmentGroup(ws[|ws| - 1].department, [ws[|ws| - 1]])])
  {
    Unseen(ws[..|ws| - 1], g0, ws[|ws| - 1].department);
    NewDistinct(g0, ws[|ws| - 1]);
    NewMembers(ws, g0);
    NewCovers(ws, g0);
    NewWitnessed(ws, g0);
    NewOrder(ws, g0);
  }

  /** One step of the reduce keeps the accumulator a grouping of the workers seen so far. */
  lemma StepGrouped(ws: seq<Worker>, g0: seq<DepartmentGroup>)
    requires ws != [] && Grouped(ws[..|ws| - 1], g0)
    ensures Grouped(ws, AddToDepartments(g0, ws[|ws| - 1]))
  {
    var w := ws[|ws| - 1];
    var found := FindGroup(g0, w.department);
    if found.Some? {
      JoinGrouped(ws, g0, found.value);
    } else {
      NewGrouped(ws, g0);
    }
  }

  /** The reduce groups its input by department (see `Grouped`). */
  lemma {:induction false} DepartmentsGrouped(ws: seq<Worker>)
    ensures Grouped(ws, Departments(ws))
  {
    if ws != [] {
      DepartmentsGrouped(ws[..|ws| - 1]);
      StepGrouped(ws, Departments(ws[..|ws| - 1]));
    }
  }

  lemma {:induction false} InOfDepartment(ws: seq<Worker>, i: nat)
    requires i < |ws|
    ensures ws[i] in OfDepartment(ws, ws[i].department)
  {
    var n := |ws| - 1;
    if i < n {
      assert ws[..n][i] == ws[i];
      InOfDepartment(ws[..n], i);
    }
  }

  lemma {:induction false} OnlyOfDepartment(ws: seq<Worker>, d: string)
    ensures forall x :: x in OfDepartment(ws, d) ==> x.department == d
  {
    if ws != [] {
      OnlyOfDepartment(ws[..|ws| - 1], d);
    }
  }

  /**
   * In a grouping, every input worker sits in exactly one group, the one named
   * after its department.
   */
  lemma WorkerInExactlyOneGroup(ws: seq<Worker>, g: seq<DepartmentGroup>, i: nat)
    requires Grouped(ws, g) && i < |ws|
    ensures exists k :: 0 <= k < |g| && g[k].name == ws[i].department && ws[i] in g[k].workers
    ensures forall k :: 0 <= k < |g| && ws[i] in g[k].workers ==> g[k].name == ws[i].department
    ensures forall a, b :: 0 <= a < |g| && 0 <= b < |g| && ws[i] in g[a].workers && ws[i] in g[b].workers
                           ==> a == b
  {
    assert Covers(ws, g);
    var k :| 0 <= k < |g| && g[k].name == ws[i].department;
    InOfDepartment(ws, i);
    forall c | 0 <= c < |g| ensures ws[i] in g[c].workers ==> g[c].name == ws[i].department {
      OnlyOfDepartment(ws, g[c].name);
    }
  }

  /** No group is empty: each is named after a worker that it then holds. */
  lemma NoEmptyGroup(ws: seq<Worker>)
    ensures forall k :: 0 <= k < |Departments(ws)| ==> |Departments(ws)[k].workers| > 0
  {
    var g := Departments(ws);
    DepartmentsGrouped(ws);
    forall k | 0 <= k < |g| ensures |g[k].workers| > 0 {
      var i :| 0 <= i < |ws| && ws[i].department == g[k].name;
      InOfDepartment(ws, i);
    }
  }

  lemma {:induction false} TotalSizeUpdate(g: seq<DepartmentGroup>, k: nat, x: DepartmentGroup)
    requires k < |g|
    ensures TotalSize(g[k := x]) == TotalSize(g) - |g[k].workers| + |x.workers|
  {
    var n := |g| - 1;
    if k == n {
      assert g[k := x][..n] == g[..n];
    } else {
      assert g[k := x][..n] == g[..n][k := x];
      TotalSizeUpdate(g[..n], k, x);
    }
  }

  /** The group sizes add up to the number of input workers. */
  lemma {:induction false} GroupSizesSum(ws: seq<Worker>)
    ensures TotalSize(Departments(ws)) == |ws|
  {
    if ws != [] {
      var p, w := ws[..|ws| - 1], ws[|ws| - 1];
      GroupSizesSum(p);
      var g0 := Departments(p);
      match FindGroup(g0, w.department)
      case Some(k) =>
        TotalSizeUpdate(g0, k, DepartmentGroup(g0[k].name, g0[k].workers + [w]));
      case None =>
        assert (g0 + [DepartmentGroup(w.department, [w])])[..|g0|] == g0;
    }
  }

  lemma DepartmentNamesSnoc(ws: seq<Worker>)
    requires ws != []
    ensures DepartmentNames(ws) == DepartmentNames(ws[..|ws| - 1]) + {ws[|ws| - 1].department}
  {
    var n := |ws| - 1;
    var p := ws[..n];
    forall d | d in DepartmentNames(ws) ensures d in DepartmentNames(p) + {ws[n].department} {
      var i :| 0 <= i < |ws| && ws[i].department == d;
      if i < n { assert p[i] == ws[i]; }
    }
    forall d | d in DepartmentNames(p) ensures d in DepartmentNames(ws) {
      var i :| 0 <= i < |p| && p[i].department == d;
      assert ws[i] == p[i];
    }
  }

  /** A department the reduce has no group for does not occur among the workers seen so far. */
  lemma UngroupedUnseen(ws: seq<Worker>, d: string)
    requires FindGroup(Departments(ws), d).None?
    ensures d !in DepartmentNames(ws)
  {
    DepartmentsGrouped(ws);
    Unseen(ws, Departments(ws), d);
  }

  /** A group the reduce built is named after a department that occurs among the workers. */
  lemma GroupedSeen(ws: seq<Worker>, k: nat)
    requires k < |Departments(ws)|
    ensures Departments(ws)[k].name in DepartmentNames(ws)
  {
    DepartmentsGrouped(ws);
    var i :| 0 <= i < |ws| && ws[i].department == Departments(ws)[k].name;
  }

  lemma AddToDepartmentsLength(acc: seq<DepartmentGroup>, w: Worker)
    ensures FindGroup(acc, w.department).Some? ==> |AddToDepartments(acc, w)| == |acc|
    ensures FindGroup(acc, w.department).None? ==> |AddToDepartments(acc, w)| == |acc| + 1
  {
  }

  /** There are as many groups as the home page counts distinct departments. */
  lemma {:induction false} GroupCountIsDepartmentCount(ws: seq<Worker>)
    ensures |Departments(ws)| == |DepartmentNames(ws)|
  {
    if ws != [] {
      var n := |ws| - 1;
      var p, w := ws[..n], ws[n];
      GroupCountIsDepartmentCount(p);
      DepartmentNamesSnoc(ws);
      var g0 := Departments(p);
      AddToDepartmentsLength(g0, w);
      var found := FindGroup(g0, w.department);
      assert Departments(ws) == AddToDepartments(g0, w);
      if found.Some? {
        GroupedSeen(p, found.value);
        assert g0[found.value].name == w.department;
        assert DepartmentNames(p) + {w.department} == DepartmentNames(p);
      } else {
        UngroupedUnseen(p, w.department);
      }
    }
  }

  /** The worked example: Eng, HR, Eng gives Eng with both its workers in order, then HR. */
  lemma GroupingExample(e1: Worker, h: Worker, e2: Worker)
    requires e1.department == "Eng" && h.department == "HR" && e2.department == "Eng"
    ensures Departments([]) == []
    ensures Departments([e1, h, e2]) ==
            [DepartmentGroup("Eng", [e1, e2]), DepartmentGroup("HR", [h])]
  {
    var eng1 := [DepartmentGroup("Eng", [e1])];
    var both := eng1 + [DepartmentGroup("HR", [h])];
    assert [e1][..0] == [];
    assert FindGroup([], "Eng") == None;
    assert Departments([e1]) == eng1;
    assert [e1, h][..1] == [e1];
    assert FindGroup(eng1[1..], "HR") == None;
    assert FindGroup(eng1, "HR") == None;
    assert Departments([e1, h]) == both;
    assert [e1, h, e2][..2] == [e1, h];
    assert FindGroup(both, "Eng") == Some(0);
    assert Departments([e1, h, e2]) == AddToDepartments(both, e2);
    assert [e1] + [e2] == [e1, e2];
    assert AddToDepartments(both, e2) == both[0 := DepartmentGroup("Eng", [e1] + [e2])];
  }

  /**
   * `workers.find((w) => w.id === worker.supervisorId)`: one lookup, never
   * followed further, so cycles in the supervision graph do no harm.
   */
  function SupervisorOf(worker: Worker, workers: seq<Worker>): (r: Option<Worker>)
    ensures worker.supervisorId.None? ==> r.None?
    ensures r.None? <==> forall j :: 0 <= j < |workers| ==> Some(workers[j].id) != worker.supervisorId
    ensures r.Some? ==> Some(r.value.id) == worker.supervisorId
    ensures r.Some? ==> exists i :: 0 <= i < |workers| && workers[i] == r.value &&
                                    forall j :: 0 <= j < i ==> workers[j].id != r.value.id
  {
    Find(workers, (w: Worker) => Some(w.id) == worker.supervisorId)
  }

  /** Conversely, the first worker whose id matches `supervisorId` is the one found. */
  lemma {:induction false} SupervisorIsFirstMatch(worker: Worker, workers: seq<Worker>, i: nat)
    requires i < |workers| && Some(workers[i].id) == worker.supervisorId
    requires forall j :: 0 <= j < i ==> Some(workers[j].id) != worker.supervisorId
    ensures SupervisorOf(worker, workers) == Some(workers[i])
  {
    var r := SupervisorOf(worker, workers);
    assert r.Some?;
    var k :| 0 <= k < |workers| && workers[k] == r.value &&
             forall j :: 0 <= j < k ==> workers[j].id != r.value.id;
    assert !(k < i) by { assert Some(workers[k].id) == worker.supervisorId; }
    assert !(i < k) by { assert workers[i].id == r.value.id; }
  }

  /** Two workers who supervise each other: each lookup answers once and stops. */
  lemma SupervisorCycle(a: Worker, b: Worker)
    requires a.id != b.id && a.supervisorId == Some(b.id) && b.supervisorId == Some(a.id)
    ensures SupervisorOf(a, [a, b]) == Some(b)
    ensures SupervisorOf(b, [a, b]) == Some(a)
  {
    assert [a, b][1..] == [b];
    assert FindIndex([b], (w: Worker) => Some(w.id) == a.supervisorId) == Some(0);
  }

  /**
   * After its supervisor is deleted from a table whose records carry their own
   * key as id, a worker's lookup finds nobody: the reference dangles.
   */
  lemma NoSupervisorAfterDelete(table: OrderedMap<Worker>, w: Worker)
    requires JsMaps.Valid(table) && w.supervisorId.Some?
    requires forall k :: k in table.entries ==> table.entries[k].id == k
    ensures SupervisorOf(w, Values(Delete(table, w.supervisorId.value))).None?
  {
    var s := w.supervisorId.value;
    var rest := Delete(table, s);
    var listed := Values(rest);
    forall j | 0 <= j < |listed| ensures Some(listed[j].id) != w.supervisorId {
      assert rest.keys[j] in rest.keys;
    }
  }
}
