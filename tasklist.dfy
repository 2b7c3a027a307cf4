/** Queries over a task table: the conjunctive filter, selection by codes,
    and one-step successor / predecessor lookup. */
module TaskList {
  import opened Seqs
  import opened Schedule

  /** The optional arguments of the filter; `None` means "not supplied". */
  datatype FilterArgs = FilterArgs(
    minStart: Option<int>,
    maxStart: Option<int>,
    minEnd: Option<int>,
    maxEnd: Option<int>,
    taskTypesOr: Option<seq<TaskType>>,
    taskName: Option<string>)

  /** One supplied filter argument, as a test on a row. */
  datatype Criterion =
    | StartAfter(bound: int)
    | StartBefore(bound: int)
    | MinEnd(bound: int)
    | MaxEnd(bound: int)
    | TypeIn(types: seq<TaskType>)
    | NameContains(pattern: string)

  /** ASCII lower-casing of one character and of a string. */
  function LowerChar(c: char): char
  {
    if 'A' <= c <= 'Z' then (c as int + 32) as char else c
  }

  function Lower(s: string): (r: string)
    ensures |r| == |s|
  {
    seq(|s|, i requires 0 <= i < |s| => LowerChar(s[i]))
  }

  /** `pat` occurs somewhere in `s`. */
  predicate HasSubstring(s: string, pat: string)
    decreases |s|
  {
    pat <= s || (s != [] && HasSubstring(s[1..], pat))
  }

  /** `pat` occurs in `s` at offset `k`. */
  predicate OccursAt(s: string, pat: string, k: int)
  {
    0 <= k && k + |pat| <= |s| && s[k..k + |pat|] == pat
  }

  /** An occurrence found by `HasSubstring` is at some offset. */
  lemma {:induction false} HasSubstringSound(s: string, pat: string)
    requires HasSubstring(s, pat)
    ensures exists k :: OccursAt(s, pat, k)
    decreases |s|
  {
    if pat <= s {
      assert OccursAt(s, pat, 0);
    } else {
      HasSubstringSound(s[1..], pat);
      var k :| OccursAt(s[1..], pat, k);
      assert s[k + 1..k + 1 + |pat|] == s[1..][k..k + |pat|];
      assert OccursAt(s, pat, k + 1);
    }
  }

  /** An occurrence at any offset is found by `HasSubstring`. */
  lemma {:induction false} HasSubstringComplete(s: string, pat: string, k: int)
    requires OccursAt(s, pat, k)
    ensures HasSubstring(s, pat)
    decreases k
  {
    if k == 0 {
      assert pat == s[..|pat|];
    } else {
      assert s[1..][k - 1..k - 1 + |pat|] == s[k..k + |pat|];
      HasSubstringComplete(s[1..], pat, k - 1);
    }
  }

  /** `HasSubstring` holds exactly when `pat` occurs at some offset of `s`. */
  lemma HasSubstringAt(s: string, pat: string)
    ensures HasSubstring(s, pat) <==> exists k :: OccursAt(s, pat, k)
  {
    if HasSubstring(s, pat) {
      HasSubstringSound(s, pat);
    }
    if exists k :: OccursAt(s, pat, k) {
      var k :| OccursAt(s, pat, k);
      HasSubstringComplete(s, pat, k);
    }
  }

  /** Case-insensitive containment (`str.contains(pattern, case=False)` for a
      pattern without regular-expression metacharacters). */
  predicate ContainsIgnoreCase(name: string, pattern: string)
    ensures ContainsIgnoreCase(name, pattern) <==> exists k :: OccursAt(Lower(name), Lower(pattern), k)
    ensures pattern == [] ==> ContainsIgnoreCase(name, pattern)
  {
    HasSubstringAt(Lower(name), Lower(pattern));
    assert pattern == [] ==> OccursAt(Lower(name), Lower(pattern), 0);
    HasSubstring(Lower(name), Lower(pattern))
  }

  /** Lower-casing is idempotent. */
  lemma LowerTwice(s: string)
    ensures Lower(Lower(s)) == Lower(s)
  {
  }

  /** The name test ignores case on both sides: lower-casing the name or
      the pattern first does not change the answer. */
  lemma ContainsIgnoresCase(name: string, pattern: string)
    ensures ContainsIgnoreCase(Lower(name), pattern) == ContainsIgnoreCase(name, pattern)
    ensures ContainsIgnoreCase(name, Lower(pattern)) == ContainsIgnoreCase(name, pattern)
  {
    LowerTwice(name);
    LowerTwice(pattern);
  }

  predicate Holds(c: Criterion, row: Row)
  {
    match c
    case StartAfter(b) => row.startDate > b
    case StartBefore(b) => row.startDate < b
    // The `min_end` argument keeps rows that end strictly BEFORE it, although
    // its log message announces "end date >": the comparison is kept as written.
    case MinEnd(b) => row.endDate < b
    case MaxEnd(b) => row.endDate < b
    case TypeIn(types) => row.taskType in types
    case NameContains(p) => ContainsIgnoreCase(row.taskName, p)
  }

  /** One list per filter argument: its criterion when supplied, else empty. */
  function MinStartPart(args: FilterArgs): seq<Criterion>
  {
    if args.minStart.Some? then [StartAfter(args.minStart.value)] else []
  }

  function MaxStartPart(args: FilterArgs): seq<Criterion>
  {
    if args.maxStart.Some? then [StartBefore(args.maxStart.value)] else []
  }

  function MinEndPart(args: FilterArgs): seq<Criterion>
  {
    if args.minEnd.Some? then [MinEnd(args.minEnd.value)] else []
  }

  function MaxEndPart(args: FilterArgs): seq<Criterion>
  {
    if args.maxEnd.Some? then [MaxEnd(args.maxEnd.value)] else []
  }

  function TypesPart(args: FilterArgs): seq<Criterion>
  {
    if args.taskTypesOr.Some? then [TypeIn(args.taskTypesOr.value)] else []
  }

  function NamePart(args: FilterArgs): seq<Criterion>
  {
    if args.taskName.Some? then [NameContains(args.taskName.value)] else []
  }

  /** The criteria the supplied arguments stand for, in the order their masks are built. */
  function Criteria(args: FilterArgs): seq<Criterion>
  {
    MinStartPart(args) + MaxStartPart(args) + MinEndPart(args) +
    MaxEndPart(args) + TypesPart(args) + NamePart(args)
  }

  predicate NoPredicates(args: FilterArgs)
  {
    args.minStart.None? && args.maxStart.None? && args.minEnd.None? &&
    args.maxEnd.None? && args.taskTypesOr.None? && args.taskName.None?
  }

  /** Every criterion of `cs` holds of `row`. */
  predicate AllHold(cs: seq<Criterion>, row: Row)
  {
    forall k :: 0 <= k < |cs| ==> Holds(cs[k], row)
  }

  lemma AllHoldAppend(a: seq<Criterion>, b: seq<Criterion>, row: Row)
    ensures AllHold(a + b, row) <==> AllHold(a, row) && AllHold(b, row)
  {
    if AllHold(a, row) && AllHold(b, row) {
      forall k | 0 <= k < |a + b| ensures Holds((a + b)[k], row) {
        if k >= |a| { assert (a + b)[k] == b[k - |a|]; }
      }
    }
    if AllHold(a + b, row) {
      forall k | 0 <= k < |a| ensures Holds(a[k], row) {
        assert (a + b)[k] == a[k];
      }
      forall k | 0 <= k < |b| ensures Holds(b[k], row) {
        assert (a + b)[|a| + k] == b[k];
      }
    }
  }

  /** A row passes the filter when every supplied criterion holds of it. */
  predicate Keep(args: FilterArgs, row: Row)
  {
    AllHold(Criteria(args), row)
  }

  /** The reference result of the filter: the passing rows, in table order. */
  function Selected(t: Table, args: FilterArgs): (r: Table)
    ensures forall x :: x in r <==> x in t && Keep(args, x)
    ensures IsSubsequence(r, t)
  {
    Where(t, row => Keep(args, row))
  }

  /** The mask of one criterion over the table. */
  function MaskOf(t: Table, c: Criterion): (m: seq<bool>)
    requires !c.TypeIn?
    ensures |m| == |t| && forall i :: 0 <= i < |t| ==> m[i] == Holds(c, t[i])
  {
    match c
    case StartAfter(b) => seq(|t|, i requires 0 <= i < |t| => t[i].startDate > b)
    case StartBefore(b) => seq(|t|, i requires 0 <= i < |t| => t[i].startDate < b)
    case MinEnd(b) => seq(|t|, i requires 0 <= i < |t| => t[i].endDate < b)
    case MaxEnd(b) => seq(|t|, i requires 0 <= i < |t| => t[i].endDate < b)
    case NameContains(p) =>
      seq(|t|, i requires 0 <= i < |t| => ContainsIgnoreCase(t[i].taskName, p))
  }

  /** ORs one equality mask per listed type; an empty list has no first mask. */
  method TypeMask(t: Table, types: seq<TaskType>) returns (r: Result<seq<bool>>)
    ensures r.Failure? <==> types == []
    ensures r.Failure? ==> r.error == EmptyTypeList
    ensures r.Success? ==>
      |r.value| == |t| && forall i :: 0 <= i < |t| ==> (r.value[i] <==> t[i].taskType in types)
  {
    var typeMasks := seq(|types|, k requires 0 <= k < |types| =>
      seq(|t|, i requires 0 <= i < |t| => t[i].taskType == types[k]));
    if |typeMasks| == 0 {
      return Failure(EmptyTypeList);
    }
    var typeMask := typeMasks[0];
    var k := 1;
    while k < |typeMasks|
      invariant 1 <= k <= |typeMasks|
      invariant |typeMask| == |t|
      invariant forall i :: 0 <= i < |t| ==> (typeMask[i] <==> t[i].taskType in types[..k])
    {
      typeMask := Or(typeMask, typeMasks[k]);
      assert types[..k + 1] == types[..k] + [types[k]];
      k := k + 1;
    }
    assert types[..k] == types;
    return Success(typeMask);
  }

  /** Each mask of `masks` is the mask of the criterion at the same place in `crit`. */
  ghost predicate MasksMatch(masks: seq<seq<bool>>, crit: seq<Criterion>, t: Table)
  {
    |masks| == |crit| &&
    forall k :: 0 <= k < |masks| ==>
      |masks[k]| == |t| && forall i :: 0 <= i < |t| ==> masks[k][i] == Holds(crit[k], t[i])
  }

  lemma AppendMask(masks: seq<seq<bool>>, crit: seq<Criterion>, t: Table, m: seq<bool>, c: Criterion)
    requires MasksMatch(masks, crit, t)
    requires |m| == |t| && forall i :: 0 <= i < |t| ==> m[i] == Holds(c, t[i])
    ensures MasksMatch(masks + [m], crit + [c], t)
  {
    assert forall k :: 0 <= k < |masks| ==> (masks + [m])[k] == masks[k] && (crit + [c])[k] == crit[k];
  }

  /** ANDs the masks together, first to last (`mask &= m`). */
  method Conjoin(masks: seq<seq<bool>>, ghost crit: seq<Criterion>, t: Table) returns (mask: seq<bool>)
    requires |masks| > 0 && MasksMatch(masks, crit, t)
    ensures |mask| == |t|
    ensures forall i :: 0 <= i < |t| ==> (mask[i] <==> AllHold(crit, t[i]))
  {
    mask := masks[0];
    var j := 1;
    while j < |masks|
      invariant 1 <= j <= |masks|
      invariant |mask| == |t|
      invariant forall i :: 0 <= i < |t| ==> (mask[i] <==> AllHold(crit[..j], t[i]))
    {
      assert crit[..j + 1] == crit[..j] + [crit[j]];
      forall i | 0 <= i < |t|
        ensures AllHold(crit[..j + 1], t[i]) <==> AllHold(crit[..j], t[i]) && Holds(crit[j], t[i])
      {
        AllHoldAppend(crit[..j], [crit[j]], t[i]);
      }
      mask := And(mask, masks[j]);
      j := j + 1;
    }
    assert crit[..j] == crit;
  }

  /** The masks of the four date arguments, in argument order. */
  method DateMasks(t: Table, args: FilterArgs) returns (masks: seq<seq<bool>>)
    ensures MasksMatch(masks, MinStartPart(args) + MaxStartPart(args) + MinEndPart(args) + MaxEndPart(args), t)
  {
    masks := [];
    ghost var crit: seq<Criterion> := [];
    if args.minStart.Some? {
      var c := StartAfter(args.minStart.value);
      AppendMask(masks, crit, t, MaskOf(t, c), c);
      masks := masks + [MaskOf(t, c)];
    } else {
      assert crit + [] == crit;
    }
    crit := crit + MinStartPart(args);
    assert MasksMatch(masks, crit, t);
    if args.maxStart.Some? {
      var c := StartBefore(args.maxStart.value);
      AppendMask(masks, crit, t, MaskOf(t, c), c);
      masks := masks + [MaskOf(t, c)];
    } else {
      assert crit + [] == crit;
    }
    crit := crit + MaxStartPart(args);
    assert MasksMatch(masks, crit, t);
    if args.minEnd.Some? {
      var c := MinEnd(args.minEnd.value);
      AppendMask(masks, crit, t, MaskOf(t, c), c);
      masks := masks + [MaskOf(t, c)];
    } else {
      assert crit + [] == crit;
    }
    crit := crit + MinEndPart(args);
    assert MasksMatch(masks, crit, t);
    if args.maxEnd.Some? {
      var c := MaxEnd(args.maxEnd.value);
      AppendMask(masks, crit, t, MaskOf(t, c), c);
      masks := masks + [MaskOf(t, c)];
    } else {
      assert crit + [] == crit;
    }
    crit := crit + MaxEndPart(args);
    assert MasksMatch(masks, crit, t);
    assert [] + MinStartPart(args) == MinStartPart(args);
  }

  /** Appends one mask per supplied argument, in argument order; an empty
      type list has no first mask to OR into and is refused. */
  method BuildMasks(t: Table, args: FilterArgs) returns (r: Result<seq<seq<bool>>>)
    ensures r.Failure? <==> args.taskTypesOr == Some([])
    ensures r.Failure? ==> r.error == EmptyTypeList
    ensures r.Success? ==> MasksMatch(r.value, Criteria(args), t)
  {
    var masks := DateMasks(t, args);
    ghost var crit := MinStartPart(args) + MaxStartPart(args) + MinEndPart(args) + MaxEndPart(args);
    if args.taskTypesOr.Some? {
      var typeMask := TypeMask(t, args.taskTypesOr.value);
      if typeMask.Failure? {
        return Failure(typeMask.error);
      }
      var c := TypeIn(args.taskTypesOr.value);
      AppendMask(masks, crit, t, typeMask.value, c);
      masks := masks + [typeMask.value];
    } else {
      assert crit + [] == crit;
    }
    crit := crit + TypesPart(args);
    assert MasksMatch(masks, crit, t);
    if args.taskName.Some? {
      var c := NameContains(args.taskName.value);
      AppendMask(masks, crit, t, MaskOf(t, c), c);
      masks := masks + [MaskOf(t, c)];
    } else {
      assert crit + [] == crit;
    }
    crit := crit + NamePart(args);
    assert MasksMatch(masks, crit, t);
    return Success(masks);
  }

  /** Builds one mask per supplied argument, ANDs them, and applies the
      result; with no argument supplied the table itself is returned. */
  method Filter(t: Table, args: FilterArgs) returns (r: Result<Table>)
    ensures r.Failure? <==> args.taskTypesOr == Some([])
    ensures r.Failure? ==> r.error == EmptyTypeList
    ensures r.Success? && NoPredicates(args) ==> r.value == t
    ensures r.Success? ==> r.value == Selected(t, args)
  {
    var built := BuildMasks(t, args);
    if built.Failure? {
      return Failure(built.error);
    }
    var masks := built.value;
    assert NoPredicates(args) ==> Criteria(args) == [];
    if |masks| == 0 {
      WhereAll(t, args);
      return Success(t);
    }
    var mask := Conjoin(masks, Criteria(args), t);
    SelectByMask(t, args, mask);
    assert !NoPredicates(args);
    return Success(ApplyMask(t, mask));
  }

  /** Applying the conjunction of the criteria masks selects the passing rows. */
  lemma SelectByMask(t: Table, args: FilterArgs, mask: seq<bool>)
    requires |mask| == |t|
    requires forall i :: 0 <= i < |t| ==> (mask[i] <==> AllHold(Criteria(args), t[i]))
    ensures ApplyMask(t, mask) == Selected(t, args)
  {
    ApplyMaskIsWhere(t, mask, row => Keep(args, row));
  }

  /** With no criterion every row passes, so the selection is the whole table. */
  lemma WhereAll(t: Table, args: FilterArgs)
    requires Criteria(args) == []
    ensures Selected(t, args) == t
  {
    assert forall row :: Keep(args, row);
    WhereTrue(t, row => Keep(args, row));
  }

  /** The filter's reference semantics: every supplied argument narrows the
      result (AND), each by its own comparison, and the type list by OR. */
  lemma KeepMeaning(args: FilterArgs, row: Row)
    ensures Keep(args, row) <==>
      (args.minStart.Some? ==> row.startDate > args.minStart.value) &&
      (args.maxStart.Some? ==> row.startDate < args.maxStart.value) &&
      (args.minEnd.Some? ==> row.endDate < args.minEnd.value) &&
      (args.maxEnd.Some? ==> row.endDate < args.maxEnd.value) &&
      (args.taskTypesOr.Some? ==> exists k :: 0 <= k < |args.taskTypesOr.value| && row.taskType == args.taskTypesOr.value[k]) &&
      (args.taskName.Some? ==> ContainsIgnoreCase(row.taskName, args.taskName.value))
  {
    var c1 := MinStartPart(args);
    var c2 := c1 + MaxStartPart(args);
    var c3 := c2 + MinEndPart(args);
    var c4 := c3 + MaxEndPart(args);
    var c5 := c4 + TypesPart(args);
    AllHoldAppend(c1, MaxStartPart(args), row);
    AllHoldAppend(c2, MinEndPart(args), row);
    AllHoldAppend(c3, MaxEndPart(args), row);
    AllHoldAppend(c4, TypesPart(args), row);
    AllHoldAppend(c5, NamePart(args), row);
    assert AllHold([], row);
    forall c: Criterion ensures AllHold([c], row) <==> Holds(c, row) {
      assert [c][0] == c;
    }
    if args.taskTypesOr.Some? {
      var types := args.taskTypesOr.value;
      assert row.taskType in types <==> exists k :: 0 <= k < |types| && row.taskType == types[k];
    }
  }

  /** As written, `min_end` acts as a second upper bound on the end date:
      supplying `min_end = d` selects the same rows as `max_end = d`. */
  lemma MinEndIsUpperBound(t: Table, d: int)
    ensures Selected(t, FilterArgs(None, None, Some(d), None, None, None)) ==
            Selected(t, FilterArgs(None, None, None, Some(d), None, None))
    ensures forall x :: x in Selected(t, FilterArgs(None, None, Some(d), None, None, None)) <==>
              x in t && x.endDate < d
  {
    var a1 := FilterArgs(None, None, Some(d), None, None, None);
    var a2 := FilterArgs(None, None, None, Some(d), None, None);
    assert Criteria(a1) == [MinEnd(d)];
    assert Criteria(a2) == [MaxEnd(d)];
    forall row ensures Keep(a1, row) == Keep(a2, row) == (row.endDate < d) {
      assert [MinEnd(d)][0] == MinEnd(d) && [MaxEnd(d)][0] == MaxEnd(d);
    }
    WhereSamePredicate(t, row => Keep(a1, row), row => Keep(a2, row));
  }

  /** A filtered table is still sorted by end date. */
  lemma FilterKeepsOrder(t: Table, args: FilterArgs)
    requires SortedBy(t, EndOf)
    ensures SortedBy(Selected(t, args), EndOf)
  {
    SubsequenceKeepsOrder(Selected(t, args), t, EndOf);
  }

  /** `isin`: the rows whose code is in `taskCodes`, in table order;
      codes that no row carries are ignored. */
  function GetSelection(t: Table, taskCodes: seq<Code>): (r: Table)
    ensures forall x :: x in r <==> x in t && x.taskCode in taskCodes
    ensures forall x :: multiset(r)[x] == if x.taskCode in taskCodes then multiset(t)[x] else 0
    ensures IsSubsequence(r, t)
  {
    Where(t, (row: Row) => row.taskCode in taskCodes)
  }

  /** The rows whose task id is in `ids`, in table order. */
  function RowsWithIds(t: Table, ids: seq<TaskId>): (r: Table)
    ensures forall x :: x in r <==> x in t && x.taskId in ids
    ensures IsSubsequence(r, t)
  {
    Where(t, (row: Row) => row.taskId in ids)
  }

  /** `df.loc[code]`: the row indexed by `code`. */
  function LookupCode(t: Table, code: Code): (r: Option<Row>)
    requires UniqueCodes(t)
    ensures r.None? <==> forall i :: 0 <= i < |t| ==> t[i].taskCode != code
    ensures forall i :: 0 <= i < |t| && t[i].taskCode == code ==> r == Some(t[i])
  {
    FindFirst(t, (row: Row) => row.taskCode == code)
  }

  /** The rows listed as successors of the task `taskCode`; `levels` is not used. */
  function GetSuccessors(t: Table, taskCode: Code, levels: int): (r: Result<Table>)
    requires UniqueCodes(t)
    ensures (forall i :: 0 <= i < |t| ==> t[i].taskCode != taskCode) ==>
      r == Failure(UnknownTaskCode(taskCode))
    ensures forall i :: 0 <= i < |t| && t[i].taskCode == taskCode ==>
      (t[i].links.None? ==> r == Failure(MissingColumn("successors"))) &&
      (t[i].links.Some? ==>
         r.Success? && IsSubsequence(r.value, t) &&
         forall x :: x in r.value <==> x in t && x.taskId in t[i].links.value.successors)
  {
    match LookupCode(t, taskCode)
    case None => Failure(UnknownTaskCode(taskCode))
    case Some(row) =>
      if row.links.None? then Failure(MissingColumn("successors"))
      else Success(RowsWithIds(t, row.links.value.successors))
  }

  /** The rows listed as predecessors of the task `taskCode`; `levels` is not used. */
  function GetPredecessors(t: Table, taskCode: Code, levels: int): (r: Result<Table>)
    requires UniqueCodes(t)
    ensures (forall i :: 0 <= i < |t| ==> t[i].taskCode != taskCode) ==>
      r == Failure(UnknownTaskCode(taskCode))
    ensures forall i :: 0 <= i < |t| && t[i].taskCode == taskCode ==>
      (t[i].links.None? ==> r == Failure(MissingColumn("predecessors"))) &&
      (t[i].links.Some? ==>
         r.Success? && IsSubsequence(r.value, t) &&
         forall x :: x in r.value <==> x in t && x.taskId in t[i].links.value.predecessors)
  {
    match LookupCode(t, taskCode)
    case None => Failure(UnknownTaskCode(taskCode))
    case Some(row) =>
      if row.links.None? then Failure(MissingColumn("predecessors"))
      else Success(RowsWithIds(t, row.links.value.predecessors))
  }
}
