/** Building the task table from a project's activity list, the first-match
    activity lookups, and the task-id to task-name map. */
module Project {
  import opened Seqs
  import opened Schedule
  import TaskList

  /** The first activity whose code is `taskCode`, or `None`. */
  function FindActivityByTaskCode(activities: seq<Activity>, taskCode: Code): (r: Option<Activity>)
    ensures r.None? <==> forall i :: 0 <= i < |activities| ==> activities[i].taskCode != taskCode
    ensures r.Some? ==>
      exists i :: 0 <= i < |activities| && activities[i] == r.value &&
                  r.value.taskCode == taskCode &&
                  forall j :: 0 <= j < i ==> activities[j].taskCode != taskCode
  {
    FindFirst(activities, (a: Activity) => a.taskCode == taskCode)
  }

  /** The first activity whose id is `taskId`, or `None`. */
  function FindActivityByTaskId(activities: seq<Activity>, taskId: TaskId): (r: Option<Activity>)
    ensures r.None? <==> forall i :: 0 <= i < |activities| ==> activities[i].taskId != taskId
    ensures r.Some? ==>
      exists i :: 0 <= i < |activities| && activities[i] == r.value &&
                  r.value.taskId == taskId &&
                  forall j :: 0 <= j < i ==> activities[j].taskId != taskId
  {
    FindFirst(activities, (a: Activity) => a.taskId == taskId)
  }

  /** The dictionary comprehension from task id to task name: every id is a
      key, and when ids repeat the last activity carrying the id wins. */
  function TaskIdToNameMap(activities: seq<Activity>): (m: map<TaskId, string>)
    ensures m.Keys == set a | a in activities :: a.taskId
    ensures forall i :: (0 <= i < |activities| &&
                         forall j :: i < j < |activities| ==> activities[j].taskId != activities[i].taskId) ==>
      m[activities[i].taskId] == activities[i].taskName
  {
    if activities == [] then map[]
    else
      var init := activities[..|activities| - 1];
      var last := activities[|activities| - 1];
      assert activities == init + [last];
      assert forall i :: 0 <= i < |init| ==> init[i] == activities[i];
      TaskIdToNameMap(init)[last.taskId := last.taskName]
  }

  /** `[t.pred_task_id for t in a.predecessors]`: one id per predecessor
      record, in record order. */
  function PredIds(a: Activity): (r: seq<TaskId>)
    ensures |r| == |a.predecessors|
    ensures forall k :: 0 <= k < |r| ==> r[k] == a.predecessors[k].predTaskId
    ensures forall id :: id in r <==> exists rel :: rel in a.predecessors && rel.predTaskId == id
  {
    var r := seq(|a.predecessors|, k requires 0 <= k < |a.predecessors| => a.predecessors[k].predTaskId);
    assert forall rel :: rel in a.predecessors ==> rel.predTaskId in r by {
      forall rel | rel in a.predecessors ensures rel.predTaskId in r {
        var k :| 0 <= k < |a.predecessors| && a.predecessors[k] == rel;
        assert r[k] == rel.predTaskId;
      }
    }
    r
  }

  /** `[t.task_id for t in a.successors]`: one id per successor record, in
      record order. */
  function SuccIds(a: Activity): (r: seq<TaskId>)
    ensures |r| == |a.successors|
    ensures forall k :: 0 <= k < |r| ==> r[k] == a.successors[k].taskId
    ensures forall id :: id in r <==> exists rel :: rel in a.successors && rel.taskId == id
  {
    var r := seq(|a.successors|, k requires 0 <= k < |a.successors| => a.successors[k].taskId);
    assert forall rel :: rel in a.successors ==> rel.taskId in r by {
      forall rel | rel in a.successors ensures rel.taskId in r {
        var k :| 0 <= k < |a.successors| && a.successors[k] == rel;
        assert r[k] == rel.taskId;
      }
    }
    r
  }

  /** The row an activity contributes to the table: its six fields, and the
      two id lists exactly when they are requested. */
  function RowOf(a: Activity, addPrecSucc: bool): (r: Row)
    ensures r.taskId == a.taskId && r.taskCode == a.taskCode && r.taskName == a.taskName
    ensures r.taskType == a.taskType && r.startDate == a.startDate && r.endDate == a.endDate
    ensures r.links.Some? <==> addPrecSucc
    ensures addPrecSucc ==> r.links.value.predecessors == PredIds(a) && r.links.value.successors == SuccIds(a)
  {
    Row(a.taskId, a.taskCode, a.taskName, a.taskType, a.startDate, a.endDate,
        if addPrecSucc then Some(Links(PredIds(a), SuccIds(a))) else None)
  }

  /** The rows in activity order, before the table is sorted. */
  function RowsOf(activities: seq<Activity>, addPrecSucc: bool): (rows: seq<Row>)
    ensures |rows| == |activities|
  {
    seq(|activities|, i requires 0 <= i < |activities| => RowOf(activities[i], addPrecSucc))
  }

  /** Fills one list per column activity by activity, assembles the rows,
      and sorts them by end date. An empty activity list has no first
      activity to read the column types from and is refused. */
  method ActivitiesToTable(activities: seq<Activity>, addPrecSucc: bool) returns (r: Result<Table>)
    ensures r.Failure? <==> activities == []
    ensures r.Failure? ==> r.error == EmptyActivityList
    ensures r.Success? ==> multiset(r.value) == multiset(RowsOf(activities, addPrecSucc))
    ensures r.Success? ==> SortedBy(r.value, EndOf)
    ensures r.Success? ==> |r.value| == |activities|
    ensures r.Success? ==> forall x :: x in r.value ==> (x.links.Some? <==> addPrecSucc)
  {
    if |activities| == 0 {
      return Failure(EmptyActivityList);
    }
    var taskIds: seq<TaskId> := [];
    var taskCodes: seq<Code> := [];
    var taskNames: seq<string> := [];
    var taskTypes: seq<TaskType> := [];
    var startDates: seq<int> := [];
    var endDates: seq<int> := [];
    var predecessors: seq<seq<TaskId>> := [];
    var successors: seq<seq<TaskId>> := [];
    var i := 0;
    while i < |activities|
      invariant 0 <= i <= |activities|
      invariant |taskIds| == |taskCodes| == |taskNames| == |taskTypes| == i
      invariant |startDates| == |endDates| == i
      invariant forall k :: 0 <= k < i ==>
        taskIds[k] == activities[k].taskId && taskCodes[k] == activities[k].taskCode &&
        taskNames[k] == activities[k].taskName && taskTypes[k] == activities[k].taskType &&
        startDates[k] == activities[k].startDate && endDates[k] == activities[k].endDate
      invariant addPrecSucc ==> |predecessors| == |successors| == i
      invariant addPrecSucc ==> forall k :: 0 <= k < i ==>
        predecessors[k] == PredIds(activities[k]) && successors[k] == SuccIds(activities[k])
    {
      var a := activities[i];
      taskIds := taskIds + [a.taskId];
      taskCodes := taskCodes + [a.taskCode];
      taskNames := taskNames + [a.taskName];
      taskTypes := taskTypes + [a.taskType];
      startDates := startDates + [a.startDate];
      endDates := endDates + [a.endDate];
      if addPrecSucc {
        predecessors := predecessors + [PredIds(a)];
        successors := successors + [SuccIds(a)];
      }
      i := i + 1;
    }
    var n := |activities|;
    var rows := seq(n, k requires 0 <= k < n =>
      Row(taskIds[k], taskCodes[k], taskNames[k], taskTypes[k], startDates[k], endDates[k],
          if addPrecSucc then Some(Links(predecessors[k], successors[k])) else None));
    assert rows == RowsOf(activities, addPrecSucc);
    var sorted := SortBy(rows, EndOf);
    TableRows(activities, addPrecSucc, sorted);
    return Success(sorted);
  }

  /** One row per activity: the table has as many rows as there were
      activities, and each row is the row of some activity. */
  lemma TableRows(activities: seq<Activity>, addPrecSucc: bool, t: Table)
    requires multiset(t) == multiset(RowsOf(activities, addPrecSucc))
    ensures |t| == |activities|
    ensures forall x :: x in t <==> exists i :: 0 <= i < |activities| && x == RowOf(activities[i], addPrecSucc)
    ensures forall x :: x in t ==> (x.links.Some? <==> addPrecSucc)
  {
    var rows := RowsOf(activities, addPrecSucc);
    PermutationFacts(t, rows);
    forall x | x in rows ensures exists i :: 0 <= i < |activities| && x == RowOf(activities[i], addPrecSucc) {
      var i :| 0 <= i < |rows| && rows[i] == x;
      assert x == RowOf(activities[i], addPrecSucc);
    }
    forall i | 0 <= i < |activities| ensures RowOf(activities[i], addPrecSucc) in rows {
      assert rows[i] == RowOf(activities[i], addPrecSucc);
    }
  }

  /** A successor record of an activity is visible through the successor
      query on the built table: the successor's row is returned. */
  lemma SuccessorEdgeVisible(activities: seq<Activity>, t: Table, a: Activity, rel: Relationship, target: Row)
    requires multiset(t) == multiset(RowsOf(activities, true))
    requires UniqueCodes(t)
    requires a in activities && rel in a.successors
    requires target in t && target.taskId == rel.taskId
    ensures TaskList.GetSuccessors(t, a.taskCode, 0).Success?
    ensures target in TaskList.GetSuccessors(t, a.taskCode, 0).value
  {
    TableRows(activities, true, t);
    var ia :| 0 <= ia < |activities| && activities[ia] == a;
    assert RowOf(a, true) in t;
    var k :| 0 <= k < |a.successors| && a.successors[k] == rel;
    assert SuccIds(a)[k] == rel.taskId;
  }

  /** A predecessor record of an activity is visible through the
      predecessor query on the built table. */
  lemma PredecessorEdgeVisible(activities: seq<Activity>, t: Table, a: Activity, rel: Relationship, source: Row)
    requires multiset(t) == multiset(RowsOf(activities, true))
    requires UniqueCodes(t)
    requires a in activities && rel in a.predecessors
    requires source in t && source.taskId == rel.predTaskId
    ensures TaskList.GetPredecessors(t, a.taskCode, 0).Success?
    ensures source in TaskList.GetPredecessors(t, a.taskCode, 0).value
  {
    TableRows(activities, true, t);
    var ia :| 0 <= ia < |activities| && activities[ia] == a;
    assert RowOf(a, true) in t;
    var k :| 0 <= k < |a.predecessors| && a.predecessors[k] == rel;
    assert PredIds(a)[k] == rel.predTaskId;
  }

  /** The worked example: two tasks A100 and A200 and one precedence
      record A100 -> A200, built with the list columns. */
  function ExampleActivities(): (acts: seq<Activity>)
    ensures |acts| == 2
  {
    var edge := Relationship(1, 2);
    [Activity(1, "A100", "Design", "TT_Task", 0, 86400, [], [edge]),
     Activity(2, "A200", "Build", "TT_Task", 86400, 172800, [edge], [])]
  }

  /** The example's rows in activity order. */
  function ExampleTable(): (t: Table)
    ensures |t| == 2 && UniqueCodes(t)
    ensures t[0].taskCode == "A100" && t[1].taskCode == "A200"
    ensures t[0].endDate < t[1].endDate
  {
    var t := RowsOf(ExampleActivities(), true);
    assert t[0].taskCode == "A100" && t[1].taskCode == "A200";
    assert "A100"[1] != "A200"[1];
    t
  }

  /** Any table built from the example is its two rows in activity order:
      their end dates already ascend. */
  lemma ExampleBuiltTable(t: Table)
    requires multiset(t) == multiset(RowsOf(ExampleActivities(), true))
    requires SortedBy(t, EndOf)
    ensures t == ExampleTable()
  {
    var r := ExampleTable();
    PermutationFacts(t, r);
    var t0, t1, r0, r1 := t[0], t[1], r[0], r[1];
    assert t == [t0, t1] && r == [r0, r1];
    assert r0 in t && r1 in t && r0 != r1;
    assert EndOf(t0) <= EndOf(t1) && EndOf(r0) < EndOf(r1);
    assert t0 == r0 && t1 == r1;
  }

  /** In the worked example the successors of A100 are exactly A200, on
      any table built from it. */
  lemma OneEdgeSuccessors(t: Table)
    requires multiset(t) == multiset(RowsOf(ExampleActivities(), true))
    requires SortedBy(t, EndOf)
    ensures UniqueCodes(t)
    ensures TaskList.GetSuccessors(t, "A100", 0) == Success([RowOf(ExampleActivities()[1], true)])
  {
    ExampleBuiltTable(t);
    var acts := ExampleActivities();
    assert t[0] == RowOf(acts[0], true);
    assert SuccIds(acts[0]) == [2];
    assert t[1] == RowOf(acts[1], true);
    assert TaskList.LookupCode(t, "A100") == Some(t[0]);
    assert TaskList.RowsWithIds(t, [2]) == [t[1]];
  }

  /** In the worked example the predecessors of A200 are exactly A100, on
      any table built from it. */
  lemma OneEdgePredecessors(t: Table)
    requires multiset(t) == multiset(RowsOf(ExampleActivities(), true))
    requires SortedBy(t, EndOf)
    ensures UniqueCodes(t)
    ensures TaskList.GetPredecessors(t, "A200", 0) == Success([RowOf(ExampleActivities()[0], true)])
  {
    ExampleBuiltTable(t);
    var acts := ExampleActivities();
    assert t[1] == RowOf(acts[1], true);
    assert PredIds(acts[1]) == [1];
    assert t[0] == RowOf(acts[0], true);
    assert TaskList.LookupCode(t, "A200") == Some(t[1]);
    assert TaskList.RowsWithIds(t, [1]) == [t[0]];
  }
}
