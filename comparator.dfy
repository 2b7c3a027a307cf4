/** Comparing two snapshots of a schedule: a join on the natural key
    (task code, name and type), the signed date differences of every
    matched pair, and a sort by the first snapshot's end date. */
module Comparator {
  import opened Seqs
  import opened Schedule

  datatype JoinMode = Left | Inner

  /** One row of the joined frame: the row of snapshot A and, when one
      matched, the row of snapshot B (the `_other` columns). */
  datatype Joined = Joined(a: Row, b: Option<Row>)

  /** A joined row with the two derived columns; a difference is `None`
      where B's date is missing. Differences are A minus B, in seconds. */
  datatype MergedRow = MergedRow(a: Row, b: Option<Row>, startDiff: Option<int>, endDiff: Option<int>)

  /** Two rows describe the same task when code, name and type all agree. */
  predicate SameKey(x: Row, y: Row)
  {
    x.taskCode == y.taskCode && x.taskName == y.taskName && x.taskType == y.taskType
  }

  /** The rows of `b` that `x` joins with, in `b`'s order, each as often as in `b`. */
  function Matches(x: Row, b: Table): (r: Table)
    ensures forall y :: y in r <==> y in b && SameKey(x, y)
    ensures forall y :: multiset(r)[y] == if SameKey(x, y) then multiset(b)[y] else 0
  {
    Where(b, (y: Row) => SameKey(x, y))
  }

  /** `x` paired with each row of `ms`, in order. */
  function Pairs(x: Row, ms: Table): (r: seq<Joined>)
    ensures |r| == |ms|
    ensures forall j :: j in r <==> j.a == x && j.b.Some? && j.b.value in ms
    ensures forall y :: multiset(r)[Joined(x, Some(y))] == multiset(ms)[y]
  {
    if ms == [] then []
    else
      var rest := Pairs(x, ms[1..]);
      assert ms == [ms[0]] + ms[1..];
      [Joined(x, Some(ms[0]))] + rest
  }

  /** The joined rows `x` contributes: one per match, or under `Left` a
      single unmatched row when nothing matches. */
  function JoinRow(x: Row, b: Table, how: JoinMode): (r: seq<Joined>)
    ensures forall j :: j in r ==>
      j.a == x && (j.b.Some? ==> j.b.value in b && SameKey(x, j.b.value)) &&
      (j.b.None? ==> how == Left && Matches(x, b) == [])
    ensures forall y :: y in b && SameKey(x, y) ==> Joined(x, Some(y)) in r
    ensures how == Left ==> r != []
    ensures Matches(x, b) != [] ==> |r| == |Matches(x, b)|
    ensures Matches(x, b) == [] ==> |r| == (if how == Left then 1 else 0)
    ensures forall y :: SameKey(x, y) ==> multiset(r)[Joined(x, Some(y))] == multiset(b)[y]
    ensures multiset(r)[Joined(x, None)] == (if how == Left && Matches(x, b) == [] then 1 else 0)
  {
    var ms := Matches(x, b);
    if ms == [] then
      if how == Left then [Joined(x, None)] else []
    else
      Pairs(x, ms)
  }

  /** `pd.merge(a, b, how, on=[task_code, task_name, task_type])`, before sorting:
      A's rows in order, each followed by its matches in B's order. */
  function Join(a: Table, b: Table, how: JoinMode): (r: seq<Joined>)
    ensures forall j :: j in r ==>
      j.a in a && (j.b.Some? ==> j.b.value in b && SameKey(j.a, j.b.value)) &&
      (j.b.None? ==> how == Left && Matches(j.a, b) == [])
    ensures forall x, y :: x in a && y in b && SameKey(x, y) ==> Joined(x, Some(y)) in r
    ensures how == Left ==> forall x :: x in a ==> exists j :: j in r && j.a == x
  {
    if a == [] then []
    else
      var head := JoinRow(a[0], b, how);
      var rest := Join(a[1..], b, how);
      assert forall x :: x in a ==> x == a[0] || x in a[1..];
      assert how == Left ==> head[0] in head + rest;
      head + rest
  }

  /** Many-to-many: a matching pair occurs in the join as often as the
      product of the two rows' multiplicities. */
  lemma {:induction false} JoinPairCount(a: Table, b: Table, how: JoinMode, x: Row, y: Row)
    requires SameKey(x, y)
    ensures multiset(Join(a, b, how))[Joined(x, Some(y))] == multiset(a)[x] * multiset(b)[y]
  {
    if a != [] {
      JoinPairCount(a[1..], b, how, x, y);
      var j := Joined(x, Some(y));
      JoinUnfold(a, b, how);
      CountOfCons(a, x);
      HeadPairCount(a[0], b, how, x, y);
      ProductStep(multiset(JoinRow(a[0], b, how))[j], multiset(Join(a[1..], b, how))[j],
                  multiset(a)[x], multiset(a[1..])[x], multiset(b)[y], a[0] == x);
    }
  }

  lemma JoinUnfold(a: Table, b: Table, how: JoinMode)
    requires a != []
    ensures Join(a, b, how) == JoinRow(a[0], b, how) + Join(a[1..], b, how)
  {
  }

  lemma CountOfCons(a: Table, x: Row)
    requires a != []
    ensures multiset(a)[x] == (if a[0] == x then 1 else 0) + multiset(a[1..])[x]
  {
    assert a == [a[0]] + a[1..];
  }

  /** The pairs one row of A contributes. */
  lemma HeadPairCount(x0: Row, b: Table, how: JoinMode, x: Row, y: Row)
    requires SameKey(x, y)
    ensures multiset(JoinRow(x0, b, how))[Joined(x, Some(y))] == if x0 == x then multiset(b)[y] else 0
  {
    if x0 != x {
      assert Joined(x, Some(y)) !in JoinRow(x0, b, how);
    }
  }

  /** The arithmetic of one step of `JoinPairCount`. */
  lemma ProductStep(h: int, r: int, count: int, m: int, n: int, first: bool)
    requires r == m * n
    requires count == if first then m + 1 else m
    requires h == if first then n else 0
    ensures h + r == count * n
  {
    if first {
      assert (m + 1) * n == m * n + n;
    }
  }

  /** An unmatched row of A occurs in a `Left` join as often as in A, and
      never in an `Inner` join or when it has a match. */
  lemma {:induction false} JoinUnmatchedCount(a: Table, b: Table, how: JoinMode, x: Row)
    ensures multiset(Join(a, b, how))[Joined(x, None)] ==
            (if how == Left && Matches(x, b) == [] then multiset(a)[x] else 0)
  {
    if a != [] {
      JoinUnmatchedCount(a[1..], b, how, x);
      JoinUnfold(a, b, how);
      CountOfCons(a, x);
      HeadUnmatchedCount(a[0], b, how, x);
    }
  }

  /** The unmatched row one row of A contributes. */
  lemma HeadUnmatchedCount(x0: Row, b: Table, how: JoinMode, x: Row)
    ensures multiset(JoinRow(x0, b, how))[Joined(x, None)] ==
            (if x0 == x && how == Left && Matches(x, b) == [] then 1 else 0)
  {
    if x0 != x {
      assert Joined(x, None) !in JoinRow(x0, b, how);
    }
  }

  /** Assigns `start_diff` and `end_diff` to a joined row. */
  function WithDiffs(j: Joined): (m: MergedRow)
    ensures m.a == j.a && m.b == j.b
    ensures j.b.Some? ==>
      m.startDiff == Some(j.a.startDate - j.b.value.startDate) &&
      m.endDiff == Some(j.a.endDate - j.b.value.endDate)
    ensures j.b.None? ==> m.startDiff.None? && m.endDiff.None?
  {
    match j.b
    case None => MergedRow(j.a, None, None, None)
    case Some(y) => MergedRow(j.a, j.b, Some(j.a.startDate - y.startDate), Some(j.a.endDate - y.endDate))
  }

  function AllWithDiffs(js: seq<Joined>): (ms: seq<MergedRow>)
    ensures |ms| == |js|
  {
    seq(|js|, k requires 0 <= k < |js| => WithDiffs(js[k]))
  }

  /** Deriving the differences loses no row and merges none: each derived
      row occurs as often as the joined row it came from. */
  lemma {:induction false} AllWithDiffsCount(js: seq<Joined>, j: Joined)
    ensures multiset(AllWithDiffs(js))[WithDiffs(j)] == multiset(js)[j]
  {
    if js != [] {
      AllWithDiffsCount(js[1..], j);
      assert AllWithDiffs(js) == [WithDiffs(js[0])] + AllWithDiffs(js[1..]);
      assert js == [js[0]] + js[1..];
      if js[0] != j {
        assert WithDiffs(js[0]).a != WithDiffs(j).a || WithDiffs(js[0]).b != WithDiffs(j).b;
      }
    }
  }

  /** The sort key of the comparison: A's end date. */
  function AEnd(m: MergedRow): int { m.a.endDate }

  /** Join, derive the differences, and sort by A's end date; the result is a
      sorted permutation of the joined rows (ties in no promised order). */
  function Merge(a: Table, b: Table, how: JoinMode): (r: seq<MergedRow>)
    ensures SortedBy(r, AEnd)
    ensures multiset(r) == multiset(AllWithDiffs(Join(a, b, how)))
  {
    SortBy(AllWithDiffs(Join(a, b, how)), AEnd)
  }

  /** Many-to-many: a matching pair occurs in the comparison, with its
      differences, as often as the product of the two rows' multiplicities. */
  lemma MergePairCount(a: Table, b: Table, how: JoinMode, x: Row, y: Row)
    requires SameKey(x, y)
    ensures multiset(Merge(a, b, how))[MergedRow(x, Some(y), Some(x.startDate - y.startDate), Some(x.endDate - y.endDate))]
            == multiset(a)[x] * multiset(b)[y]
  {
    var j := Joined(x, Some(y));
    PairDiffs(x, y);
    MergeCountOf(a, b, how, j);
    JoinPairCount(a, b, how, x, y);
  }

  lemma PairDiffs(x: Row, y: Row)
    ensures WithDiffs(Joined(x, Some(y))) == MergedRow(x, Some(y), Some(x.startDate - y.startDate), Some(x.endDate - y.endDate))
  {
  }

  lemma MergeCountOf(a: Table, b: Table, how: JoinMode, j: Joined)
    ensures multiset(Merge(a, b, how))[WithDiffs(j)] == multiset(Join(a, b, how))[j]
  {
    AllWithDiffsCount(Join(a, b, how), j);
  }

  /** An unmatched row of A occurs in a `Left` comparison, without B's
      columns and differences, as often as in A; never otherwise. */
  lemma MergeUnmatchedCount(a: Table, b: Table, how: JoinMode, x: Row)
    ensures multiset(Merge(a, b, how))[MergedRow(x, None, None, None)] ==
            (if how == Left && Matches(x, b) == [] then multiset(a)[x] else 0)
  {
    var j := Joined(x, None);
    assert WithDiffs(j) == MergedRow(x, None, None, None);
    MergeCountOf(a, b, how, j);
    JoinUnmatchedCount(a, b, how, x);
  }

  /** The rows of the comparison: every row comes from A; a matched row
      carries a B row with the same key and the signed differences A - B;
      an unmatched row occurs only in `Left` mode, for an A row with no
      match, and has no differences. */
  lemma MergeRowMeaning(a: Table, b: Table, how: JoinMode, m: MergedRow)
    requires m in Merge(a, b, how)
    ensures m.a in a
    ensures m.b.Some? ==>
      m.b.value in b && SameKey(m.a, m.b.value) &&
      m.startDiff == Some(m.a.startDate - m.b.value.startDate) &&
      m.endDiff == Some(m.a.endDate - m.b.value.endDate)
    ensures m.b.None? ==>
      how == Left && m.startDiff.None? && m.endDiff.None? &&
      forall y :: y in b ==> !SameKey(m.a, y)
  {
    var j := JoinedOf(a, b, how, m);
    JoinedRowMeaning(a, b, how, j, m);
  }

  /** What a joined row and its differences say about the two snapshots. */
  lemma JoinedRowMeaning(a: Table, b: Table, how: JoinMode, j: Joined, m: MergedRow)
    requires WithDiffs(j) == m && j.a in a
    requires j.b.Some? ==> j.b.value in b && SameKey(j.a, j.b.value)
    requires j.b.None? ==> how == Left && Matches(j.a, b) == []
    ensures m.a in a
    ensures m.b.Some? ==>
      m.b.value in b && SameKey(m.a, m.b.value) &&
      m.startDiff == Some(m.a.startDate - m.b.value.startDate) &&
      m.endDiff == Some(m.a.endDate - m.b.value.endDate)
    ensures m.b.None? ==>
      how == Left && m.startDiff.None? && m.endDiff.None? &&
      forall y :: y in b ==> !SameKey(m.a, y)
  {
    assert m.a == j.a && m.b == j.b;
    if j.b.None? {
      forall y | y in b ensures !SameKey(m.a, y) {
        assert y !in Matches(j.a, b);
      }
    }
  }

  /** The joined row a row of the comparison was derived from. */
  lemma JoinedOf(a: Table, b: Table, how: JoinMode, m: MergedRow) returns (j: Joined)
    requires m in Merge(a, b, how)
    ensures j in Join(a, b, how) && WithDiffs(j) == m && j.a in a
    ensures j.b.Some? ==> j.b.value in b && SameKey(j.a, j.b.value)
    ensures j.b.None? ==> how == Left && Matches(j.a, b) == []
  {
    var js := Join(a, b, how);
    var ms := AllWithDiffs(js);
    PermutationFacts(Merge(a, b, how), ms);
    assert m in ms;
    var k :| 0 <= k < |ms| && ms[k] == m;
    assert ms[k] == WithDiffs(js[k]);
    j := js[k];
  }

  /** Every pair of rows with the same key appears in the comparison, in
      either mode, with its differences. */
  lemma MergeHasEveryMatch(a: Table, b: Table, how: JoinMode, x: Row, y: Row)
    requires x in a && y in b && SameKey(x, y)
    ensures MergedRow(x, Some(y), Some(x.startDate - y.startDate), Some(x.endDate - y.endDate)) in Merge(a, b, how)
  {
    PairInJoin(a, b, how, x, y);
    DiffsOfMember(Join(a, b, how), x, y);
    InMerge(a, b, how, MergedRow(x, Some(y), Some(x.startDate - y.startDate), Some(x.endDate - y.endDate)));
  }

  lemma PairInJoin(a: Table, b: Table, how: JoinMode, x: Row, y: Row)
    requires x in a && y in b && SameKey(x, y)
    ensures Joined(x, Some(y)) in Join(a, b, how)
  {
  }

  lemma InMerge(a: Table, b: Table, how: JoinMode, m: MergedRow)
    requires m in AllWithDiffs(Join(a, b, how))
    ensures m in Merge(a, b, how)
  {
    PermutationFacts(Merge(a, b, how), AllWithDiffs(Join(a, b, how)));
  }

  lemma DiffsOfMember(js: seq<Joined>, x: Row, y: Row)
    requires Joined(x, Some(y)) in js
    ensures MergedRow(x, Some(y), Some(x.startDate - y.startDate), Some(x.endDate - y.endDate)) in AllWithDiffs(js)
  {
    var k :| 0 <= k < |js| && js[k] == Joined(x, Some(y));
    assert AllWithDiffs(js)[k] == WithDiffs(js[k]);
  }

  /** In `Left` mode every row of A appears in the comparison. */
  lemma MergeLeftKeepsA(a: Table, b: Table, x: Row)
    requires x in a
    ensures exists m :: m in Merge(a, b, Left) && m.a == x
  {
    var js := Join(a, b, Left);
    var j :| j in js && j.a == x;
    var k :| 0 <= k < |js| && js[k] == j;
    assert AllWithDiffs(js)[k].a == x;
    PermutationFacts(Merge(a, b, Left), AllWithDiffs(js));
  }

  /** With unique codes in `b`, a row of A has at most one match. */
  lemma {:induction false} AtMostOneMatch(x: Row, b: Table)
    requires UniqueCodes(b)
    ensures |Matches(x, b)| <= 1
  {
    if b != [] {
      UniqueCodesTail(b);
      AtMostOneMatch(x, b[1..]);
      if SameKey(x, b[0]) {
        assert Matches(x, b) == [b[0]] + Matches(x, b[1..]);
        assert forall y :: y in b[1..] ==> !SameKey(x, y);
        assert Matches(x, b[1..]) == [];
      } else {
        assert Matches(x, b) == Matches(x, b[1..]);
      }
    }
  }

  /** With unique codes in B, a `Left` comparison has exactly one row per
      row of A and an `Inner` comparison at most that many. */
  lemma {:induction false} MergeCardinality(a: Table, b: Table)
    requires UniqueCodes(b)
    ensures |Merge(a, b, Left)| == |a|
    ensures |Merge(a, b, Inner)| <= |a|
  {
    JoinCardinality(a, b);
    PermutationFacts(Merge(a, b, Left), AllWithDiffs(Join(a, b, Left)));
    PermutationFacts(Merge(a, b, Inner), AllWithDiffs(Join(a, b, Inner)));
  }

  lemma {:induction false} JoinCardinality(a: Table, b: Table)
    requires UniqueCodes(b)
    ensures |Join(a, b, Left)| == |a|
    ensures |Join(a, b, Inner)| <= |a|
  {
    if a != [] {
      AtMostOneMatch(a[0], b);
      JoinCardinality(a[1..], b);
    }
  }

  /** The rows of `a` that have at least one match in `b`. */
  function MatchedRows(a: Table, b: Table): (r: Table)
    ensures forall x :: x in r <==> x in a && Matches(x, b) != []
  {
    Where(a, (x: Row) => Matches(x, b) != [])
  }

  /** With unique codes in B, an `Inner` join has one row per matched row of A. */
  lemma {:induction false} InnerJoinCount(a: Table, b: Table)
    requires UniqueCodes(b)
    ensures |Join(a, b, Inner)| == |MatchedRows(a, b)|
  {
    if a != [] {
      AtMostOneMatch(a[0], b);
      InnerJoinCount(a[1..], b);
    }
  }

  /** Rows with unique codes drawn from a set of codes are no more than the set. */
  lemma {:induction false} UniqueCodesBound(t: Table, codes: set<Code>)
    requires UniqueCodes(t)
    requires forall x :: x in t ==> x.taskCode in codes
    ensures |t| <= |codes|
  {
    if t != [] {
      UniqueCodesTail(t);
      UniqueCodesBound(t[1..], codes - {t[0].taskCode});
    }
  }

  /** The codes of a table are no more than its rows. */
  lemma {:induction false} CodesBound(t: Table)
    ensures |set y | y in t :: y.taskCode| <= |t|
  {
    if t != [] {
      CodesBound(t[1..]);
      var rest := set y | y in t[1..] :: y.taskCode;
      assert (set y | y in t :: y.taskCode) == rest + {t[0].taskCode} by {
        assert forall y :: y in t <==> y == t[0] || y in t[1..];
      }
      if t[0].taskCode in rest {
        assert rest + {t[0].taskCode} == rest;
      }
    }
  }

  /** When both snapshots have unique codes, an `Inner` comparison has at
      most as many rows as the smaller snapshot. */
  lemma MergeInnerBound(a: Table, b: Table)
    requires UniqueCodes(a) && UniqueCodes(b)
    ensures |Merge(a, b, Inner)| <= |a| && |Merge(a, b, Inner)| <= |b|
  {
    MergeCardinality(a, b);
    InnerJoinCount(a, b);
    PermutationFacts(Merge(a, b, Inner), AllWithDiffs(Join(a, b, Inner)));
    var matched := MatchedRows(a, b);
    WhereKeepsUniqueCodes(a, (x: Row) => Matches(x, b) != []);
    var codes := set y | y in b :: y.taskCode;
    forall x | x in matched ensures x.taskCode in codes {
      var y := Matches(x, b)[0];
      assert y in Matches(x, b);
    }
    UniqueCodesBound(matched, codes);
    CodesBound(b);
  }

  /** Comparing a table with itself: with unique codes every row matches
      itself only, so both modes give one row per task and every
      difference is zero. */
  lemma {:induction false} MergeWithItself(a: Table, how: JoinMode)
    requires UniqueCodes(a)
    ensures |Merge(a, a, how)| == |a|
    ensures forall m :: m in Merge(a, a, how) ==> m.startDiff == Some(0) && m.endDiff == Some(0)
  {
    SelfJoin(a, a, how);
    PermutationFacts(Merge(a, a, how), AllWithDiffs(Join(a, a, how)));
    forall m | m in Merge(a, a, how) ensures m.startDiff == Some(0) && m.endDiff == Some(0) {
      SelfMergeRow(a, how, m);
    }
  }

  /** A row of a table compared with itself is matched with itself. */
  lemma SelfMergeRow(a: Table, how: JoinMode, m: MergedRow)
    requires UniqueCodes(a) && m in Merge(a, a, how)
    ensures m.b == Some(m.a)
    ensures m.startDiff == Some(0) && m.endDiff == Some(0)
  {
    MergeRowMeaning(a, a, how, m);
    MatchedWithItself(a, m);
  }

  /** A comparison row drawn from `a` against `a` with unique codes. */
  lemma MatchedWithItself(a: Table, m: MergedRow)
    requires UniqueCodes(a) && m.a in a
    requires m.b.Some? ==>
      m.b.value in a && SameKey(m.a, m.b.value) &&
      m.startDiff == Some(m.a.startDate - m.b.value.startDate) &&
      m.endDiff == Some(m.a.endDate - m.b.value.endDate)
    requires m.b.None? ==> forall y :: y in a ==> !SameKey(m.a, y)
    ensures m.b == Some(m.a)
    ensures m.startDiff == Some(0) && m.endDiff == Some(0)
  {
    assert SameKey(m.a, m.a);
    assert m.b.Some?;
    SameKeyInUniqueTable(a, m.a, m.b.value);
  }

  /** Two rows of a table with unique codes that share a key are the same row. */
  lemma SameKeyInUniqueTable(t: Table, x: Row, y: Row)
    requires UniqueCodes(t) && x in t && y in t && SameKey(x, y)
    ensures x == y
  {
    var i :| 0 <= i < |t| && t[i] == x;
    var j :| 0 <= j < |t| && t[j] == y;
    assert !(i < j) && !(j < i);
  }

  /** Joining any part `a` of a table `t` with unique codes against `t` gives
      one row per row of `a`. */
  lemma {:induction false} SelfJoin(a: Table, t: Table, how: JoinMode)
    requires UniqueCodes(t)
    requires forall x :: x in a ==> x in t
    ensures |Join(a, t, how)| == |a|
  {
    if a != [] {
      AtMostOneMatch(a[0], t);
      assert a[0] in Matches(a[0], t);
      SelfJoin(a[1..], t, how);
    }
  }

  /** The worked example: a task that moved two days later in snapshot B
      shows differences of minus two days (in seconds). */
  lemma TwoDaysLater()
    ensures
      var ra := Row(1, "A100", "Install", "TT_Task", 1704067200, 1704412800, None);  // 2024-01-01, 2024-01-05
      var rb := Row(1, "A100", "Install", "TT_Task", 1704240000, 1704585600, None);  // 2024-01-03, 2024-01-07
      Merge([ra], [rb], Inner) == [MergedRow(ra, Some(rb), Some(-172800), Some(-172800))]
  {
    var ra := Row(1, "A100", "Install", "TT_Task", 1704067200, 1704412800, None);
    var rb := Row(1, "A100", "Install", "TT_Task", 1704240000, 1704585600, None);
    assert Matches(ra, [rb]) == [rb];
    assert JoinRow(ra, [rb], Inner) == [Joined(ra, Some(rb))];
    assert Join([ra], [rb], Inner) == [Joined(ra, Some(rb))];
    var m := MergedRow(ra, Some(rb), Some(-172800), Some(-172800));
    assert AllWithDiffs([Joined(ra, Some(rb))]) == [m];
    assert multiset(Merge([ra], [rb], Inner)) == multiset{m};
  }
}
