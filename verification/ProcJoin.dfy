/** Process observation as a collect, validate and finalise protocol. What the
    host answers is the script `Run`: every check in it may have passed or
    failed. Row objects are numbered, so the report and a group can share one. */
module ProcJoin {
  import opened Text

  const MAX_MATCHES := 4096
  const MAX_MATCH_BYTES := 768 * 1024
  const MAX_OBSERVATION_BYTES := 512 * 1024

  datatype Join = Pending | Unknown | Joined

  /** One call of `emit`; `size` is the encoded size with its margin. */
  datatype Hit = Hit(ancestor: bool, own: bool, size: nat)

  /** One task: the deadline check before it, the references found until the scan
      ended, whether an ambiguous reference spoiled the group, whether the scan
      reached its end, and whether its descriptors closed. */
  datatype Task = Task(checked: bool, hits: seq<Hit>, spoiled: bool, finished: bool, closed: bool, size: nat)

  /** One view: opening its table, its tasks, the validation with the digest
      comparison, the second validation, the last poll and the close. */
  datatype Group = Group(tabled: bool, tasks: seq<Task>, validated: bool, revalidated: bool, polled: bool, closed: bool)

  /** All views, and the closing scan of all tasks. */
  datatype Run = Run(groups: seq<Group>, rescanned: bool, sameTasks: bool)

  datatype Row = Row(group: nat, task: nat, join: Join)

  // ---- what a run may claim ------------------------------------------------

  predicate CleanTask(t: Task) {
    !t.spoiled && t.finished && t.closed
  }

  /** Tasks before the first expired deadline check. */
  function Reached(tasks: seq<Task>): (n: nat)
    ensures n <= |tasks|
    ensures forall i :: 0 <= i < n ==> tasks[i].checked
    ensures n < |tasks| ==> !tasks[n].checked
  {
    if tasks == [] || !tasks[0].checked then 0 else 1 + Reached(tasks[1..])
  }

  predicate CleanTasks(tasks: seq<Task>) {
    forall i :: 0 <= i < |tasks| ==> CleanTask(tasks[i])
  }

  predicate CleanScan(g: Group) {
    g.tabled && CleanTasks(g.tasks[..Reached(g.tasks)])
  }

  /** Nothing about the group failed, from its opening to its close. */
  predicate Lasted(g: Group) {
    g.validated && g.revalidated && g.polled && g.closed
  }

  predicate Intact(g: Group) {
    CleanScan(g) && Lasted(g)
  }

  predicate StableTasks(run: Run) {
    run.rescanned && run.sameTasks
  }

  function HitsOfTasks(tasks: seq<Task>): (r: seq<Hit>) {
    if tasks == [] then [] else HitsOfTasks(tasks[..|tasks| - 1]) + tasks[|tasks| - 1].hits
  }

  lemma NextTask(tasks: seq<Task>, t: nat)
    requires t < |tasks|
    ensures HitsOfTasks(tasks[..t + 1]) == HitsOfTasks(tasks[..t]) + tasks[t].hits
    ensures CleanTasks(tasks[..t + 1]) <==> CleanTasks(tasks[..t]) && CleanTask(tasks[t])
  {
    assert tasks[..t + 1][..t] == tasks[..t] && tasks[..t + 1][t] == tasks[t];
    assert forall i :: 0 <= i < t ==> tasks[..t + 1][i] == tasks[..t][i];
  }

  function HitsOfGroup(g: Group): (r: seq<Hit>) {
    if g.tabled then HitsOfTasks(g.tasks[..Reached(g.tasks)]) else []
  }

  function HitsOf(groups: seq<Group>): (r: seq<Hit>) {
    if groups == [] then [] else HitsOf(groups[..|groups| - 1]) + HitsOfGroup(groups[|groups| - 1])
  }

  /** How many of the references are of one bucket. */
  function Count(hits: seq<Hit>, ancestor: bool, own: bool): (n: nat) {
    if hits == [] then 0
    else
      var h := hits[|hits| - 1];
      Count(hits[..|hits| - 1], ancestor, own) +
      (if h.ancestor == ancestor && (ancestor || h.own == own) then 1 else 0)
  }

  lemma CountAppend(hits: seq<Hit>, h: Hit, ancestor: bool, own: bool)
    ensures Count(hits + [h], ancestor, own) ==
            Count(hits, ancestor, own) + (if h.ancestor == ancestor && (ancestor || h.own == own) then 1 else 0)
  {
    assert (hits + [h])[..|hits|] == hits;
  }

  /** Totals per bucket: external, audit owned, ancestor exposures. */
  datatype Totals = Totals(external: nat, auditOwned: nat, ancestors: nat)

  function TotalsOf(hits: seq<Hit>): (t: Totals) {
    Totals(Count(hits, false, false), Count(hits, false, true), Count(hits, true, true))
  }

  function Bump(t: Totals, h: Hit): (r: Totals) {
    if h.ancestor then t.(ancestors := t.ancestors + 1)
    else if h.own then t.(auditOwned := t.auditOwned + 1)
    else t.(external := t.external + 1)
  }

  lemma {:induction false} TotalsAppend(hits: seq<Hit>, h: Hit)
    ensures TotalsOf(hits + [h]) == Bump(TotalsOf(hits), h)
  {
    CountAppend(hits, h, false, false);
    CountAppend(hits, h, false, true);
    CountAppend(hits, h, true, true);
  }

  ghost predicate Listed(rows: seq<Row>, groupRows: seq<seq<nat>>, i: nat) {
    i < |rows| && rows[i].group < |groupRows| && i in groupRows[rows[i].group]
  }

  /** The list of one group: its own rows, each once. */
  ghost predicate OwnRows(rows: seq<Row>, list: seq<nat>, g: nat) {
    Distinct(list) && forall k :: 0 <= k < |list| ==> list[k] < |rows| && rows[list[k]].group == g
  }

  /** Every row object is listed once, by its own group. */
  ghost predicate FiledRows(rows: seq<Row>, groupRows: seq<seq<nat>>) {
    && (forall g {:trigger OwnRows(rows, groupRows[g], g)} :: 0 <= g < |groupRows| ==> OwnRows(rows, groupRows[g], g))
    && (forall i {:trigger Listed(rows, groupRows, i)} :: 0 <= i < |rows| ==> Listed(rows, groupRows, i))
  }

  lemma FileKeeps(rows: seq<Row>, groupRows: seq<seq<nat>>, row: Row)
    requires FiledRows(rows, groupRows) && row.group < |groupRows|
    ensures FiledRows(rows + [row], groupRows[row.group := groupRows[row.group] + [|rows|]])
  {
    var rows' := rows + [row];
    var lists := groupRows[row.group := groupRows[row.group] + [|rows|]];
    forall g | 0 <= g < |lists| ensures OwnRows(rows', lists[g], g) {
      assert OwnRows(rows, groupRows[g], g);
    }
    forall i | 0 <= i < |rows'| ensures Listed(rows', lists, i) {
      if i < |rows| { assert Listed(rows, groupRows, i); }
    }
  }

  /** The same row objects, their join fields perhaps changed. */
  ghost predicate SameObjects(rows: seq<Row>, rows': seq<Row>) {
    |rows'| == |rows| && forall i :: 0 <= i < |rows| ==> rows'[i] == rows[i].(join := rows'[i].join)
  }

  lemma SameObjectsFiled(rows: seq<Row>, rows': seq<Row>, groupRows: seq<seq<nat>>)
    requires FiledRows(rows, groupRows) && SameObjects(rows, rows')
    ensures FiledRows(rows', groupRows)
  {
    assert forall i :: 0 <= i < |rows| ==> rows'[i].group == rows[i].group;
    forall g | 0 <= g < |groupRows| ensures OwnRows(rows', groupRows[g], g) {
      assert OwnRows(rows, groupRows[g], g);
    }
    forall i | 0 <= i < |rows'| ensures Listed(rows', groupRows, i) {
      assert Listed(rows, groupRows, i);
    }
  }

  /** Until the barrier a row is pending, or unknown in a group given up. */
  ghost predicate Undecided(rows: seq<Row>, invalid: seq<bool>) {
    forall i :: 0 <= i < |rows| ==>
      rows[i].group < |invalid| && (rows[i].join == Pending || (rows[i].join == Unknown && invalid[rows[i].group]))
  }

  class ProcObservation {
    var rows: seq<Row>
    var matches: seq<nat>
    var observations: seq<nat>
    var groupRows: seq<seq<nat>>
    var invalid: seq<bool>
    var totals: Totals
    var matchesOmitted: nat
    var observationsOmitted: nat
    var matchBytes: nat
    var observationBytes: nat
    var tasksObserved: nat
    var incomplete: bool
    ghost var emitted: seq<Hit>

    ghost predicate Filed()
      reads this
    {
      && |groupRows| == |invalid| && FiledRows(rows, groupRows)
      && (forall k :: 0 <= k < |matches| ==> matches[k] < |rows|)
      && (forall k :: 0 <= k < |observations| ==> observations[k] < |rows|)
    }

    /** The counters agree with the references emitted so far. */
    ghost predicate Counted()
      reads this
    {
      && totals == TotalsOf(emitted)
      && totals.external + totals.auditOwned == |matches| + matchesOmitted
      && tasksObserved == |observations| + observationsOmitted
      && |matches| <= MAX_MATCHES && matchBytes <= MAX_MATCH_BYTES && observationBytes <= MAX_OBSERVATION_BYTES
      && (matchesOmitted + observationsOmitted > 0 ==> incomplete)
    }

    constructor (groups: nat)
      ensures Filed() && Counted() && rows == [] && emitted == [] && !incomplete
      ensures |groupRows| == groups && forall g :: 0 <= g < groups ==> groupRows[g] == [] && !invalid[g]
    {
      rows, matches, observations := [], [], [];
      groupRows, invalid := seq(groups, i => []), seq(groups, i => false);
      totals, matchesOmitted, observationsOmitted := Totals(0, 0, 0), 0, 0;
      matchBytes, observationBytes, tasksObserved, incomplete := 0, 0, 0, false;
      emitted := [];
    }

    /** A new row object filed under group g. */
    method File(g: nat, t: nat, join: Join) returns (i: nat)
      requires Filed() && g < |groupRows|
      modifies this`rows, this`groupRows
      ensures Filed() && i == |old(rows)| && rows == old(rows) + [Row(g, t, join)]
      ensures |groupRows| == |old(groupRows)|
    {
      FileKeeps(rows, groupRows, Row(g, t, join));
      i := |rows|;
      rows := rows + [Row(g, t, join)];
      groupRows := groupRows[g := groupRows[g] + [i]];
    }

    /** Reports a reference, or counts it as omitted. */
    method Keep(g: nat, t: nat, size: nat)
      requires Filed() && g < |groupRows| && |matches| <= MAX_MATCHES && matchBytes <= MAX_MATCH_BYTES
      modifies this`rows, this`groupRows, this`matches, this`matchesOmitted, this`matchBytes, this`incomplete
      ensures Filed() && |groupRows| == |old(groupRows)| && |matches| <= MAX_MATCHES && matchBytes <= MAX_MATCH_BYTES
      ensures |matches| + matchesOmitted == old(|matches| + matchesOmitted) + 1
      ensures if old(|matches|) < MAX_MATCHES && old(matchBytes) + size <= MAX_MATCH_BYTES
              then rows == old(rows) + [Row(g, t, Pending)] && matches == old(matches) + [|old(rows)|] && incomplete == old(incomplete)
              else rows == old(rows) && matches == old(matches) && incomplete
    {
      if |matches| == MAX_MATCHES || matchBytes + size > MAX_MATCH_BYTES {
        matchesOmitted := matchesOmitted + 1;
        incomplete := true;
        return;
      }
      matchBytes := matchBytes + size;
      var i := File(g, t, Pending);
      matches := matches + [i];
    }

    method Emit(g: nat, t: nat, hit: Hit)
      requires Filed() && Counted() && g < |groupRows|
      modifies this`rows, this`groupRows, this`matches, this`totals,
               this`matchesOmitted, this`matchBytes, this`incomplete, this`emitted
      ensures Filed() && Counted() && emitted == old(emitted) + [hit] && |groupRows| == |old(groupRows)|
      ensures rows == old(rows) || rows == old(rows) + [Row(g, t, Pending)]
      ensures matches == old(matches) || matches == old(matches) + [|old(rows)|]
      ensures !hit.ancestor && |old(matches)| < MAX_MATCHES && old(matchBytes) + hit.size <= MAX_MATCH_BYTES
              <==> matches == old(matches) + [|old(rows)|]
      ensures old(incomplete) ==> incomplete
    {
      TotalsAppend(emitted, hit);
      emitted := emitted + [hit];
      totals := Bump(totals, hit);
      if hit.ancestor { return; }
      Keep(g, t, hit.size);
    }

    /** `for row in list: row['join'] = join` */
    method Mark(list: seq<nat>, join: Join)
      requires Filed() && forall k :: 0 <= k < |list| ==> list[k] < |rows|
      modifies this`rows
      ensures Filed() && SameObjects(old(rows), rows)
      ensures forall i :: 0 <= i < |rows| ==> rows[i].join == if i in list then join else old(rows)[i].join
    {
      for n := 0 to |list|
        invariant Filed() && SameObjects(old(rows), rows)
        invariant forall i :: 0 <= i < |rows| ==> rows[i].join == if i in list[..n] then join else old(rows)[i].join
      {
        var rows' := rows[list[n] := rows[list[n]].(join := join)];
        SameObjectsFiled(rows, rows', groupRows);
        assert list[..n + 1] == list[..n] + [list[n]];
        rows := rows';
      }
      assert list[..|list|] == list;
    }

    /** All references of one task. */
    method EmitAll(g: nat, t: nat, hits: seq<Hit>)
      requires Filed() && Counted() && g < |groupRows| && Undecided(rows, invalid)
      modifies this`rows, this`groupRows, this`matches, this`totals,
               this`matchesOmitted, this`matchBytes, this`incomplete, this`emitted
      ensures Filed() && Counted() && |groupRows| == |old(groupRows)| && Undecided(rows, invalid)
      ensures emitted == old(emitted) + hits && |matches| >= |old(matches)|
      ensures forall k :: |old(matches)| <= k < |matches| ==> rows[matches[k]].group == g
    {
      for n := 0 to |hits|
        invariant Filed() && Counted() && |groupRows| == |old(groupRows)| && Undecided(rows, invalid)
        invariant emitted == old(emitted) + hits[..n] && |matches| >= |old(matches)|
        invariant forall k :: |old(matches)| <= k < |matches| ==> rows[matches[k]].group == g
      {
        Emit(g, t, hits[n]);
        assert hits[..n + 1] == hits[..n] + [hits[n]];
      }
      assert hits[..|hits|] == hits;
    }

    /** Files the observation and gives the rows of that scan its join. */
    method Settle(g: nat, t: nat, join: Join, mark: nat) returns (ob: nat)
      requires Filed() && Counted() && g < |groupRows| && Undecided(rows, invalid) && mark <= |matches|
      requires join == Pending || (join == Unknown && invalid[g])
      requires forall k :: mark <= k < |matches| ==> rows[matches[k]].group == g
      modifies this`rows, this`groupRows
      ensures Filed() && Counted() && |groupRows| == |old(groupRows)| && Undecided(rows, invalid)
      ensures ob < |rows| && rows[ob] == Row(g, t, join)
      ensures forall k :: mark <= k < |matches| ==> rows[matches[k]].join == join
    {
      ob := File(g, t, join);
      assert ob !in matches[mark..];
      Mark(matches[mark..], join);
      assert forall k :: mark <= k < |matches| ==> matches[k] == matches[mark..][k - mark];
    }

    /** Reports the observation, or counts it as omitted. */
    method Retain(ob: nat, size: nat)
      requires Filed() && Counted() && ob < |rows|
      modifies this`observations, this`observationBytes, this`observationsOmitted, this`tasksObserved, this`incomplete
      ensures Filed() && Counted() && (old(incomplete) ==> incomplete)
      ensures observations == old(observations) + (if old(observationBytes) + size <= MAX_OBSERVATION_BYTES then [ob] else [])
    {
      tasksObserved := tasksObserved + 1;
      if observationBytes + size <= MAX_OBSERVATION_BYTES {
        observationBytes := observationBytes + size;
        observations := observations + [ob];
      } else {
        observationsOmitted := observationsOmitted + 1;
        incomplete := true;
      }
    }

    /** One task's scan, including the cleanup that always runs. */
    method ScanTask(g: nat, t: nat, task: Task)
      requires Filed() && Counted() && g < |groupRows| && Undecided(rows, invalid)
      modifies this
      ensures Filed() && Counted() && |groupRows| == |old(groupRows)| && Undecided(rows, invalid)
      ensures emitted == old(emitted) + task.hits
      ensures invalid == old(invalid)[g := old(invalid)[g] || !CleanTask(task)]
      ensures |matches| >= |old(matches)|
      ensures forall k :: |old(matches)| <= k < |matches| ==>
                rows[matches[k]].join == if task.finished && task.closed then Pending else Unknown
    {
      var mark := |matches|;
      EmitAll(g, t, task.hits);
      var join := if task.finished && task.closed then Pending else Unknown;
      if task.spoiled || !task.finished || !task.closed { invalid := invalid[g := true]; }
      var ob := Settle(g, t, join, mark);
      Retain(ob, task.size);
    }

    /** A view's tasks, up to the deadline. */
    method ScanTasks(g: nat, tasks: seq<Task>)
      requires Filed() && Counted() && g < |groupRows| && Undecided(rows, invalid)
      modifies this
      ensures Filed() && Counted() && |groupRows| == |old(groupRows)| && Undecided(rows, invalid)
      ensures emitted == old(emitted) + HitsOfTasks(tasks[..Reached(tasks)])
      ensures invalid == old(invalid)[g := old(invalid)[g] || !CleanTasks(tasks[..Reached(tasks)])]
    {
      var t := 0;
      ghost var end := Reached(tasks);
      while t < |tasks| && tasks[t].checked
        invariant 0 <= t <= end
        invariant Filed() && Counted() && |groupRows| == |old(groupRows)| && Undecided(rows, invalid)
        invariant emitted == old(emitted) + HitsOfTasks(tasks[..t])
        invariant invalid == old(invalid)[g := old(invalid)[g] || !CleanTasks(tasks[..t])]
      {
        ScanTask(g, t, tasks[t]);
        NextTask(tasks, t);
        t := t + 1;
      }
      assert t == end;
    }

    method ScanGroup(g: nat, group: Group)
      requires Filed() && Counted() && g < |groupRows| && Undecided(rows, invalid)
      modifies this
      ensures Filed() && Counted() && |groupRows| == |old(groupRows)| && Undecided(rows, invalid)
      ensures emitted == old(emitted) + HitsOfGroup(group)
      ensures invalid == old(invalid)[g := old(invalid)[g] || !CleanScan(group)]
    {
      if !group.tabled {
        invalid := invalid[g := true];
      } else {
        ScanTasks(g, group.tasks);
      }
    }

    /** A round of checks over all views; a failed one gives the view up. */
    method Veto(passed: seq<bool>)
      requires |passed| == |invalid| && Undecided(rows, invalid)
      modifies this`invalid
      ensures |invalid| == |old(invalid)| && Undecided(rows, invalid)
      ensures forall g :: 0 <= g < |invalid| ==> invalid[g] == (old(invalid)[g] || !passed[g])
    {
      for n := 0 to |passed|
        invariant |invalid| == |old(invalid)| && Undecided(rows, invalid)
        invariant forall g :: 0 <= g < |invalid| ==> invalid[g] == (old(invalid)[g] || (g < n && !passed[g]))
      {
        if !passed[n] { invalid := invalid[n := true]; }
      }
    }

    /** The four rounds after the scan, from validation to close. */
    method VetoAll(groups: seq<Group>)
      requires |groups| == |invalid| && Undecided(rows, invalid)
      modifies this`invalid
      ensures |invalid| == |old(invalid)| && Undecided(rows, invalid)
      ensures forall g :: 0 <= g < |invalid| ==> invalid[g] == (old(invalid)[g] || !Lasted(groups[g]))
    {
      var n := |groups|;
      Veto(seq(n, g requires 0 <= g < n => groups[g].validated));
      Veto(seq(n, g requires 0 <= g < n => groups[g].revalidated));
      Veto(seq(n, g requires 0 <= g < n => groups[g].polled));
      Veto(seq(n, g requires 0 <= g < n => groups[g].closed));
    }

    /** Decides the rows of one view, each once. */
    method Decide(g: nat)
      requires Filed() && g < |groupRows|
      modifies this`rows
      ensures Filed() && SameObjects(old(rows), rows)
      ensures forall i :: 0 <= i < |rows| && rows[i].group != g ==> rows[i] == old(rows)[i]
      ensures forall i :: 0 <= i < |rows| && rows[i].group == g ==>
                rows[i].join == if invalid[g] || old(rows)[i].join != Pending then Unknown else Joined
    {
      var list := groupRows[g];
      assert OwnRows(rows, list, g);
      for n := 0 to |list|
        invariant Filed() && SameObjects(old(rows), rows)
        invariant forall i :: 0 <= i < |rows| && i !in list[..n] ==> rows[i] == old(rows)[i]
        invariant forall i :: 0 <= i < |rows| && i in list[..n] ==>
                    rows[i].join == if invalid[g] || old(rows)[i].join != Pending then Unknown else Joined
      {
        var i := list[n];
        assert i !in list[..n];
        var rows' := rows[i := rows[i].(join := if invalid[g] || rows[i].join != Pending then Unknown else Joined)];
        SameObjectsFiled(rows, rows', groupRows);
        assert list[..n + 1] == list[..n] + [i];
        rows := rows';
      }
      assert list[..|list|] == list;
      forall i | 0 <= i < |rows| && rows[i].group == g ensures i in list { assert Listed(rows, groupRows, i); }
    }

    /** The barrier: only now does any row become joined. */
    method DecideAll()
      requires Filed() && Undecided(rows, invalid)
      modifies this`rows
      ensures Filed() && SameObjects(old(rows), rows)
      ensures forall i :: 0 <= i < |rows| ==> rows[i].join == if invalid[rows[i].group] then Unknown else Joined
    {
      for g := 0 to |groupRows|
        invariant Filed() && SameObjects(old(rows), rows)
        invariant forall i :: 0 <= i < |rows| && rows[i].group >= g ==> rows[i] == old(rows)[i]
        invariant forall i :: 0 <= i < |rows| && rows[i].group < g ==>
                    rows[i].join == if invalid[rows[i].group] then Unknown else Joined
      {
        Decide(g);
      }
      forall i | 0 <= i < |rows| ensures rows[i].group < |groupRows| { assert Listed(rows, groupRows, i); }
    }

    /** Collecting over all views. */
    method ScanAll(groups: seq<Group>)
      requires Filed() && Counted() && rows == [] && emitted == [] && |groupRows| == |groups|
      requires forall g :: 0 <= g < |groups| ==> !invalid[g]
      modifies this
      ensures Filed() && Counted() && |groupRows| == |groups| && Undecided(rows, invalid)
      ensures emitted == HitsOf(groups)
      ensures forall g :: 0 <= g < |groups| ==> invalid[g] == !CleanScan(groups[g])
    {
      for n := 0 to |groups|
        invariant Filed() && Counted() && |groupRows| == |groups| && Undecided(rows, invalid)
        invariant emitted == HitsOf(groups[..n])
        invariant forall g :: 0 <= g < |groups| ==> invalid[g] == (g < n && !CleanScan(groups[g]))
      {
        ScanGroup(n, groups[n]);
        assert groups[..n + 1][..n] == groups[..n];
      }
      assert groups[..|groups|] == groups;
    }

    /** `proc_observation`: every reported row is decided, and joined exactly when
        nothing about its view failed from opening to close and the set of tasks
        was the same at both ends. */
    method Observe(run: Run)
      requires Filed() && Counted() && rows == [] && emitted == [] && |groupRows| == |run.groups|
      requires forall g :: 0 <= g < |run.groups| ==> !invalid[g]
      modifies this
      ensures Filed() && Counted() && emitted == HitsOf(run.groups)
      ensures forall i :: i in matches || i in observations ==>
                && i < |rows| && rows[i].group < |run.groups|
                && rows[i].join == if StableTasks(run) && Intact(run.groups[rows[i].group]) then Joined else Unknown
    {
      var n := |run.groups|;
      ScanAll(run.groups);
      VetoAll(run.groups);
      DecideAll();
      forall i | 0 <= i < |rows| ensures rows[i].group < n { assert Listed(rows, groupRows, i); }
      if !run.rescanned || !run.sameTasks {
        Mark(matches + observations, Unknown);
      }
    }
  }
}
