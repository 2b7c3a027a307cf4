/** The records of a project schedule and the task table built from them.

    Timestamps are integer seconds (the table stores them at second
    resolution); identifiers, codes, names and types are plain values. */
module Schedule {
  import opened Seqs

  type TaskId = int
  type Code = string
  type TaskType = string

  /** One precedence record: `predTaskId` must finish before `taskId`. */
  datatype Relationship = Relationship(predTaskId: TaskId, taskId: TaskId)

  /** A scheduled activity as the schedule reader supplies it. Its
      `predecessors` are the records whose `taskId` is this activity, its
      `successors` the records whose `predTaskId` is this activity. */
  datatype Activity = Activity(
    taskId: TaskId,
    taskCode: Code,
    taskName: string,
    taskType: TaskType,
    startDate: int,
    endDate: int,
    predecessors: seq<Relationship>,
    successors: seq<Relationship>)

  /** The two list columns of the table: task ids, not yet resolved to codes. */
  datatype Links = Links(predecessors: seq<TaskId>, successors: seq<TaskId>)

  /** One row of the task table, indexed by `taskCode`. `links` is `None`
      when the table was built without the predecessor/successor columns. */
  datatype Row = Row(
    taskId: TaskId,
    taskCode: Code,
    taskName: string,
    taskType: TaskType,
    startDate: int,
    endDate: int,
    links: Option<Links>)

  type Table = seq<Row>

  datatype Error =
    | EmptyActivityList          // `activities[0]` on an empty list
    | UnknownTaskCode(code: Code) // `df.loc[code]` on a code not in the index
    | MissingColumn(name: string) // a list column the table was built without
    | EmptyTypeList              // `type_masks[0]` on an empty type list

  datatype Result<+T> = Success(value: T) | Failure(error: Error)

  /** The sort key of the table. */
  function EndOf(r: Row): int { r.endDate }

  /** Task codes index the table: no two rows share one. */
  predicate UniqueCodes(t: Table)
  {
    forall i, j :: 0 <= i < j < |t| ==> t[i].taskCode != t[j].taskCode
  }

  /** The rest of a table with unique codes has unique codes, none equal to the first. */
  lemma {:induction false} UniqueCodesTail(t: Table)
    requires UniqueCodes(t) && t != []
    ensures UniqueCodes(t[1..])
    ensures forall x :: x in t[1..] ==> x.taskCode != t[0].taskCode
  {
    forall i, j | 0 <= i < j < |t| - 1 ensures t[1..][i].taskCode != t[1..][j].taskCode {
      assert t[1..][i] == t[i + 1] && t[1..][j] == t[j + 1];
    }
    forall x | x in t[1..] ensures x.taskCode != t[0].taskCode {
      var j :| 0 <= j < |t| - 1 && t[1..][j] == x;
      assert t[j + 1] == x;
    }
  }

  /** A row whose code is new can be put in front. */
  lemma ConsUniqueCodes(h: Row, rest: Table)
    requires UniqueCodes(rest)
    requires forall x :: x in rest ==> x.taskCode != h.taskCode
    ensures UniqueCodes([h] + rest)
  {
    var r := [h] + rest;
    forall i, j | 0 <= i < j < |r| ensures r[i].taskCode != r[j].taskCode {
      assert r[j] == rest[j - 1];
      if i > 0 { assert r[i] == rest[i - 1]; }
    }
  }

  /** Selecting rows keeps the codes unique. */
  lemma {:induction false} WhereKeepsUniqueCodes(t: Table, p: Row -> bool)
    requires UniqueCodes(t)
    ensures UniqueCodes(Where(t, p))
  {
    if t != [] {
      UniqueCodesTail(t);
      WhereKeepsUniqueCodes(t[1..], p);
      var rest := Where(t[1..], p);
      if p(t[0]) {
        assert Where(t, p) == [t[0]] + rest;
        ConsUniqueCodes(t[0], rest);
      } else {
        assert Where(t, p) == rest;
      }
    }
  }
}
