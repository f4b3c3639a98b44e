/** The sorted mount index: records by raw point, the longest record of every
    slash pattern, and each pattern linked to its nearest shorter prefix. */
module MountIndex {
  import opened Text
  import opened Ledger
  import opened MountScan

  const MAX_ENTRIES := 524288
  const MAX_PATH := 8192

  /** One distinct mount point: two distinct row objects at most are kept. */
  datatype Record = Record(point: string, row: Row, second: Option<Row>, pattern: string, parent: int)

  function RecordPoint(e: Record): string { e.point }
  function RecordPattern(e: Record): string { e.pattern }

  // ---- what the index holds ------------------------------------------------

  /** The record names a row at its point, and a second one if there is one. */
  ghost predicate Describes(e: Record, rows: seq<Row>) {
    && e.pattern == Pattern(e.point)
    && e.row in rows && e.row.point == e.point
    && (e.second.Some? ==> e.second.value in rows && e.second.value.point == e.point && e.second.value != e.row)
    && (e.second.None? ==> forall r :: r in rows && r.point == e.point ==> r == e.row)
  }

  ghost predicate HasPoint(exact: seq<Record>, point: string) {
    exists i :: 0 <= i < |exact| && exact[i].point == point
  }

  ghost predicate HasPattern(prefix: seq<Record>, pattern: string) {
    exists k :: 0 <= k < |prefix| && prefix[k].pattern == pattern
  }

  ghost predicate ExactIndex(rows: seq<Row>, exact: seq<Record>) {
    && StrictBy(RecordPoint, exact)
    && (forall i {:trigger Describes(exact[i], rows)} :: 0 <= i < |exact| ==> Describes(exact[i], rows))
    && (forall r {:trigger HasPoint(exact, r.point)} :: r in rows ==> HasPoint(exact, r.point))
  }

  /** The longest spelling of its pattern. */
  ghost predicate Heads(e: Record, exact: seq<Record>) {
    && e.(parent := -1) in exact
    && forall i :: 0 <= i < |exact| && exact[i].pattern == e.pattern ==> |exact[i].point| <= |e.point|
  }

  ghost predicate PrefixIndex(exact: seq<Record>, prefix: seq<Record>) {
    && StrictBy(RecordPattern, prefix)
    && (forall k {:trigger Heads(prefix[k], exact)} :: 0 <= k < |prefix| ==> Heads(prefix[k], exact))
    && (forall i {:trigger HasPattern(prefix, exact[i].pattern)} :: 0 <= i < |exact| ==> HasPattern(prefix, exact[i].pattern))
  }

  /** `p` is the nearest earlier index whose pattern starts the text x. */
  predicate NearestBefore(prefix: seq<Record>, i: int, p: int, x: string)
    requires i <= |prefix|
  {
    && -1 <= p < i
    && (p >= 0 ==> prefix[p].pattern <= x)
    && forall j :: p < j < i && 0 <= j ==> !(prefix[j].pattern <= x)
  }

  predicate LinkedUpTo(prefix: seq<Record>, n: int)
    requires 0 <= n <= |prefix|
  {
    forall i {:trigger NearestBefore(prefix, i, prefix[i].parent, prefix[i].pattern)} ::
      0 <= i < n ==> NearestBefore(prefix, i, prefix[i].parent, prefix[i].pattern)
  }

  // ---- the ancestor argument -----------------------------------------------

  /** Between an index and its linked parent no pattern starts x, whenever x
      sorts at or after that index's pattern. */
  lemma ChaseSkipsNothing(prefix: seq<Record>, i: int, k: int, x: string)
    requires StrictBy(RecordPattern, prefix)
    requires 0 <= i < |prefix| && NearestBefore(prefix, i, prefix[i].parent, prefix[i].pattern)
    requires AtMost(prefix[i].pattern, x)
    requires prefix[i].parent < k < i && 0 <= k
    ensures !(prefix[k].pattern <= x)
  {
    if prefix[k].pattern <= x {
      assert Less(RecordPattern(prefix[k]), RecordPattern(prefix[i]));
      PrefixInterval(prefix[k].pattern, prefix[i].pattern, x);
    }
  }

  lemma ExactOfPermutation(rows: seq<Row>, ordered: seq<Row>, exact: seq<Record>)
    requires multiset(rows) == multiset(ordered) && ExactIndex(ordered, exact)
    ensures ExactIndex(rows, exact)
  {
    SameElements(rows, ordered);
    forall i | 0 <= i < |exact| ensures Describes(exact[i], rows) {
      assert Describes(exact[i], ordered);
    }
  }

  lemma DescribesElsewhere(e: Record, done: seq<Row>, row: Row)
    requires Describes(e, done) && row.point != e.point
    ensures Describes(e, done + [row])
  {
  }

  /** The in-place update of a record by a further row at its point. */
  function Joined(e: Record, row: Row): (r: Record) {
    if row != e.row && e.second.None? then e.(second := Some(row)) else e
  }

  lemma DescribesHere(e: Record, done: seq<Row>, row: Row)
    requires Describes(e, done) && row.point == e.point
    ensures Describes(Joined(e, row), done + [row])
  {
  }

  /** One more row with the same point as the last record. */
  lemma RepeatedPoint(done: seq<Row>, exact: seq<Record>, row: Row)
    requires ExactIndex(done, exact) && exact != []
    requires row.point == exact[|exact| - 1].point
    ensures ExactIndex(done + [row], exact[|exact| - 1 := Joined(exact[|exact| - 1], row)])
  {
    var n := |exact| - 1;
    var exact' := exact[n := Joined(exact[n], row)];
    assert forall i :: 0 <= i < |exact| ==> RecordPoint(exact'[i]) == RecordPoint(exact[i]);
    forall i | 0 <= i < |exact'| ensures Describes(exact'[i], done + [row]) {
      if i < n {
        assert Less(RecordPoint(exact[i]), RecordPoint(exact[n]));
        LessAsymmetric(exact[i].point, row.point);
        DescribesElsewhere(exact[i], done, row);
      } else {
        DescribesHere(exact[n], done, row);
      }
    }
    forall r | r in done + [row] ensures HasPoint(exact', r.point) {
      if r in done {
        assert HasPoint(exact, r.point);
        var i :| 0 <= i < |exact| && exact[i].point == r.point;
        assert exact'[i].point == r.point;
      } else {
        assert exact'[n].point == r.point;
      }
    }
  }

  /** One more row whose point sorts after every record. */
  lemma FreshPoint(done: seq<Row>, exact: seq<Record>, row: Row)
    requires ExactIndex(done, exact)
    requires exact != [] ==> Less(exact[|exact| - 1].point, row.point)
    ensures ExactIndex(done + [row], exact + [Record(row.point, row, None, Pattern(row.point), -1)])
  {
    var e := Record(row.point, row, None, Pattern(row.point), -1);
    var exact' := exact + [e];
    forall i | 0 <= i < |exact| ensures Less(exact[i].point, row.point) {
      if i < |exact| - 1 {
        assert Less(RecordPoint(exact[i]), RecordPoint(exact[|exact| - 1]));
        LessTransitive(exact[i].point, exact[|exact| - 1].point, row.point);
      }
    }
    forall r | r in done ensures r.point != row.point {
      assert HasPoint(exact, r.point);
      var i :| 0 <= i < |exact| && exact[i].point == r.point;
      LessAsymmetric(exact[i].point, row.point);
    }
    forall i, j | 0 <= i < j < |exact'| ensures Less(RecordPoint(exact'[i]), RecordPoint(exact'[j])) {
      if j < |exact| { assert Less(RecordPoint(exact[i]), RecordPoint(exact[j])); }
    }
    forall i | 0 <= i < |exact'| ensures Describes(exact'[i], done + [row]) {
      if i < |exact| {
        LessAsymmetric(exact[i].point, row.point);
        DescribesElsewhere(exact[i], done, row);
      }
    }
    forall r | r in done + [row] ensures HasPoint(exact', r.point) {
      if r in done {
        assert HasPoint(exact, r.point);
        var i :| 0 <= i < |exact| && exact[i].point == r.point;
        assert exact'[i].point == r.point;
      } else {
        assert exact'[|exact|].point == r.point;
      }
    }
  }

  lemma HeadsElsewhere(e: Record, done: seq<Record>, rec: Record)
    requires Heads(e, done) && rec.pattern != e.pattern
    ensures Heads(e, done + [rec])
  {
  }

  function Longer(e: Record, rec: Record): (r: Record) {
    if |rec.point| > |e.point| then rec else e
  }

  lemma HeadsHere(e: Record, done: seq<Record>, rec: Record)
    requires Heads(e, done) && rec.pattern == e.pattern && rec.parent == -1
    ensures Heads(Longer(e, rec), done + [rec])
  {
    assert rec.(parent := -1) == rec && rec in done + [rec];
  }

  lemma RepeatedPattern(done: seq<Record>, all: seq<Record>, rec: Record)
    requires PrefixIndex(done, all) && all != [] && rec.parent == -1
    requires rec.pattern == all[|all| - 1].pattern
    ensures PrefixIndex(done + [rec], all[..|all| - 1] + [Longer(all[|all| - 1], rec)])
  {
    var n := |all| - 1;
    var all' := all[..n] + [Longer(all[n], rec)];
    assert forall k :: 0 <= k < |all| ==> RecordPattern(all'[k]) == RecordPattern(all[k]);
    forall k | 0 <= k < |all'| ensures Heads(all'[k], done + [rec]) {
      if k < n {
        assert Less(RecordPattern(all[k]), RecordPattern(all[n]));
        LessAsymmetric(all[k].pattern, rec.pattern);
        HeadsElsewhere(all[k], done, rec);
      } else {
        HeadsHere(all[n], done, rec);
      }
    }
    PatternsKept(done, rec, all, all');
  }

  lemma PatternsKept(done: seq<Record>, rec: Record, all: seq<Record>, all': seq<Record>)
    requires forall i {:trigger HasPattern(all, done[i].pattern)} :: 0 <= i < |done| ==> HasPattern(all, done[i].pattern)
    requires |all| <= |all'| && forall k :: 0 <= k < |all| ==> all'[k].pattern == all[k].pattern
    requires all' != [] && rec.pattern == all'[|all'| - 1].pattern
    ensures forall i {:trigger HasPattern(all', (done + [rec])[i].pattern)} ::
              0 <= i < |done + [rec]| ==> HasPattern(all', (done + [rec])[i].pattern)
  {
    forall i | 0 <= i < |done + [rec]| ensures HasPattern(all', (done + [rec])[i].pattern) {
      if i < |done| {
        assert HasPattern(all, done[i].pattern);
        var k :| 0 <= k < |all| && all[k].pattern == done[i].pattern;
        assert all'[k].pattern == done[i].pattern;
      } else {
        assert all'[|all'| - 1].pattern == rec.pattern;
      }
    }
  }

  lemma FreshPattern(done: seq<Record>, all: seq<Record>, rec: Record)
    requires PrefixIndex(done, all) && rec.parent == -1
    requires all != [] ==> Less(all[|all| - 1].pattern, rec.pattern)
    ensures PrefixIndex(done + [rec], all + [rec])
  {
    var all' := all + [rec];
    forall k | 0 <= k < |all| ensures Less(all[k].pattern, rec.pattern) && rec.pattern != all[k].pattern {
      if k < |all| - 1 {
        assert Less(RecordPattern(all[k]), RecordPattern(all[|all| - 1]));
        LessTransitive(all[k].pattern, all[|all| - 1].pattern, rec.pattern);
      }
      LessAsymmetric(all[k].pattern, rec.pattern);
    }
    forall i, j | 0 <= i < j < |all'| ensures Less(RecordPattern(all'[i]), RecordPattern(all'[j])) {
      if j < |all| { assert Less(RecordPattern(all[i]), RecordPattern(all[j])); }
    }
    forall k | 0 <= k < |all'| ensures Heads(all'[k], done + [rec]) {
      if k < |all| {
        HeadsElsewhere(all[k], done, rec);
      } else {
        FreshHeads(done, all, rec);
      }
    }
    PatternsKept(done, rec, all, all');
  }

  lemma FreshHeads(done: seq<Record>, all: seq<Record>, rec: Record)
    requires PrefixIndex(done, all) && rec.parent == -1
    requires forall k :: 0 <= k < |all| ==> rec.pattern != all[k].pattern
    ensures Heads(rec, done + [rec])
  {
    assert rec.(parent := -1) == rec && rec in done + [rec];
    forall i | 0 <= i < |done| ensures done[i].pattern != rec.pattern {
      assert HasPattern(all, done[i].pattern);
    }
  }

  lemma PrefixOfPermutation(exact: seq<Record>, ordered: seq<Record>, prefix: seq<Record>)
    requires multiset(exact) == multiset(ordered) && PrefixIndex(ordered, prefix)
    ensures PrefixIndex(exact, prefix)
  {
    SameElements(exact, ordered);
    forall k | 0 <= k < |prefix| ensures Heads(prefix[k], exact) {
      assert Heads(prefix[k], ordered);
      forall i | 0 <= i < |exact| && exact[i].pattern == prefix[k].pattern
        ensures |exact[i].point| <= |prefix[k].point|
      {
        assert exact[i] in ordered;
      }
    }
    forall i | 0 <= i < |exact| ensures HasPattern(prefix, exact[i].pattern) {
      assert exact[i] in ordered;
      var j :| 0 <= j < |ordered| && ordered[j] == exact[i];
      assert HasPattern(prefix, ordered[j].pattern);
    }
  }

  /** Filling in a parent link changes nothing else the index says. */
  lemma LinkKeepsPrefix(exact: seq<Record>, prefix: seq<Record>, k: nat, p: int)
    requires PrefixIndex(exact, prefix) && k < |prefix|
    ensures PrefixIndex(exact, prefix[k := prefix[k].(parent := p)])
  {
    var prefix' := prefix[k := prefix[k].(parent := p)];
    assert forall i :: 0 <= i < |prefix| ==> RecordPattern(prefix'[i]) == RecordPattern(prefix[i]);
    forall i | 0 <= i < |prefix'| ensures Heads(prefix'[i], exact) {
      assert Heads(prefix[i], exact);
      assert prefix'[i].(parent := -1) == prefix[i].(parent := -1);
    }
    forall i | 0 <= i < |exact| ensures HasPattern(prefix', exact[i].pattern) {
      assert HasPattern(prefix, exact[i].pattern);
      var j :| 0 <= j < |prefix| && prefix[j].pattern == exact[i].pattern;
      assert prefix'[j].pattern == exact[i].pattern;
    }
  }

  predicate Unlinked(records: seq<Record>) {
    forall i :: 0 <= i < |records| ==> records[i].parent == -1
  }

  /** The exact list after one more row of the sorted table. */
  function Recorded(exact: seq<Record>, row: Row): (r: seq<Record>) {
    if exact != [] && exact[|exact| - 1].point == row.point then
      exact[|exact| - 1 := Joined(exact[|exact| - 1], row)]
    else
      exact + [Record(row.point, row, None, Pattern(row.point), -1)]
  }

  lemma RecordedIndex(done: seq<Row>, exact: seq<Record>, row: Row)
    requires ExactIndex(done, exact) && (exact != [] ==> AtMost(exact[|exact| - 1].point, row.point))
    ensures ExactIndex(done + [row], Recorded(exact, row))
  {
    if exact != [] && exact[|exact| - 1].point == row.point {
      RepeatedPoint(done, exact, row);
    } else {
      FreshPoint(done, exact, row);
    }
  }

  /** The exact records of the first n rows end in the record of row n - 1. */
  ghost predicate RecordsUpTo(ordered: seq<Row>, exact: seq<Record>, n: nat)
    requires n <= |ordered|
  {
    && ExactIndex(ordered[..n], exact) && Unlinked(exact)
    && (exact != [] ==> n > 0 && exact[|exact| - 1].point == ordered[n - 1].point)
  }

  lemma NextRecorded(ordered: seq<Row>, exact: seq<Record>, n: nat)
    requires n < |ordered| && SortedBy(RowPoint, ordered) && RecordsUpTo(ordered, exact, n)
    ensures RecordsUpTo(ordered, Recorded(exact, ordered[n]), n + 1)
  {
    assert ordered[..n + 1] == ordered[..n] + [ordered[n]];
    if exact != [] { assert AtMost(RowPoint(ordered[n - 1]), RowPoint(ordered[n])); }
    RecordedIndex(ordered[..n], exact, ordered[n]);
  }

  /** The heads of the patterns after one more record of the sorted list. */
  function Grouped(all: seq<Record>, rec: Record): (r: seq<Record>) {
    if all != [] && all[|all| - 1].pattern == rec.pattern then
      all[..|all| - 1] + [Longer(all[|all| - 1], rec)]
    else
      all + [rec]
  }

  lemma GroupedIndex(done: seq<Record>, all: seq<Record>, rec: Record)
    requires PrefixIndex(done, all) && rec.parent == -1
    requires all != [] ==> AtMost(all[|all| - 1].pattern, rec.pattern)
    ensures PrefixIndex(done + [rec], Grouped(all, rec))
  {
    if all != [] && all[|all| - 1].pattern == rec.pattern {
      RepeatedPattern(done, all, rec);
    } else {
      FreshPattern(done, all, rec);
    }
  }

  // ---- weighing candidates -------------------------------------------------

  /** The longest candidate rows met so far; two distinct ones at most. */
  datatype Tally = Tally(best: Option<Row>, second: Option<Row>, length: int)

  function Offer(t: Tally, row: Option<Row>): (r: Tally) {
    if row.None? || row == t.best || row == t.second then t
    else if t.best.None? then t.(best := row)
    else t.(second := row)
  }

  function Weigh(t: Tally, e: Record): (r: Tally) {
    if |e.point| < t.length then t
    else
      var u := if |e.point| > t.length then Tally(None, None, |e.point|) else t;
      Offer(Offer(u, Some(e.row)), e.second)
  }

  ghost predicate Eligible(path: string, rows: seq<Row>, r: Row, n: int) {
    r in rows && Beneath(path, r.point) && |r.point| == n
  }

  ghost predicate Summary(path: string, rows: seq<Row>, t: Tally) {
    && (t.best.None? ==> t.second.None? && t.length == -1)
    && (t.best.Some? ==> Eligible(path, rows, t.best.value, t.length))
    && (t.second.Some? ==> Eligible(path, rows, t.second.value, t.length) && t.second != t.best)
  }

  /** The tally accounts for row r. */
  predicate Weighed(t: Tally, r: Row) {
    |r.point| <= t.length && (|r.point| == t.length ==> t.best == Some(r) || t.second.Some?)
  }

  lemma WeighKeeps(path: string, rows: seq<Row>, t: Tally, e: Record)
    requires Summary(path, rows, t) && Describes(e, rows) && Beneath(path, e.point)
    ensures Summary(path, rows, Weigh(t, e))
    ensures forall r :: Weighed(t, r) ==> Weighed(Weigh(t, e), r)
    ensures forall r :: r in rows && r.point == e.point ==> Weighed(Weigh(t, e), r)
    ensures forall r: Row :: |r.point| < |e.point| ==> Weighed(Weigh(t, e), r)
  {
  }

  /** Every row of a matching pattern is accounted for by the pattern's head. */
  lemma HeadCoversPattern(path: string, rows: seq<Row>, exact: seq<Record>, t: Tally, e: Record, r: Row)
    requires ExactIndex(rows, exact) && Heads(e, exact) && Describes(e, rows)
    requires Summary(path, rows, t) && Beneath(path, e.point)
    requires r in rows && Pattern(r.point) == e.pattern
    ensures Weighed(Weigh(t, e), r)
  {
    WeighKeeps(path, rows, t, e);
    assert HasPoint(exact, r.point);
    var i :| 0 <= i < |exact| && exact[i].point == r.point;
    assert Describes(exact[i], rows);
    if |r.point| == |e.point| { SamePatternSameLength(r.point, e.point); }
  }

  /** Every row of a matching pattern beyond `parent` is accounted for. */
  ghost predicate Passed(path: string, rows: seq<Row>, prefix: seq<Record>, parent: int, t: Tally) {
    forall k, r {:trigger prefix[k], Weighed(t, r)} ::
      parent < k < |prefix| && 0 <= k && prefix[k].pattern <= path && r in rows && Pattern(r.point) == prefix[k].pattern
      ==> Weighed(t, r)
  }

  /** With every matching pattern passed, the tally decides the join. */
  lemma TallyDecides(path: string, rows: seq<Row>, exact: seq<Record>, prefix: seq<Record>, t: Tally)
    requires ExactIndex(rows, exact) && PrefixIndex(exact, prefix)
    requires Summary(path, rows, t) && Passed(path, rows, prefix, -1, t)
    requires forall r :: r in rows && r.point == path ==> Weighed(t, r)
    ensures forall r :: t.best == Some(r) && t.second.None? <==> Closest(path, rows, r)
  {
    forall r | r in rows && Beneath(path, r.point) ensures Weighed(t, r) {
      if r.point != path {
        assert HasPoint(exact, r.point);
        var i :| 0 <= i < |exact| && exact[i].point == r.point;
        assert Describes(exact[i], rows);
        assert HasPattern(prefix, exact[i].pattern);
        var k :| 0 <= k < |prefix| && prefix[k].pattern == exact[i].pattern;
        assert prefix[k].pattern <= path;
      }
    }
    forall r ensures t.best == Some(r) && t.second.None? <==> Closest(path, rows, r) {
      if Closest(path, rows, r) {
        assert Weighed(t, r);
      }
    }
  }

  /** Moving the ancestor walk from i to its linked parent misses nothing. */
  lemma WalkStep(path: string, rows: seq<Row>, prefix: seq<Record>, i: int, t: Tally, u: Tally)
    requires StrictBy(RecordPattern, prefix) && LinkedUpTo(prefix, |prefix|)
    requires 0 <= i < |prefix| && AtMost(prefix[i].pattern, path)
    requires Passed(path, rows, prefix, i, t)
    requires forall r :: Weighed(t, r) ==> Weighed(u, r)
    requires prefix[i].pattern <= path ==>
               forall r :: r in rows && Pattern(r.point) == prefix[i].pattern ==> Weighed(u, r)
    ensures -1 <= prefix[i].parent < i && Passed(path, rows, prefix, prefix[i].parent, u)
    ensures prefix[i].parent >= 0 ==> AtMost(prefix[prefix[i].parent].pattern, path)
  {
    assert NearestBefore(prefix, i, prefix[i].parent, prefix[i].pattern);
    var p := prefix[i].parent;
    forall k, r | p < k < |prefix| && 0 <= k && prefix[k].pattern <= path && r in rows && Pattern(r.point) == prefix[k].pattern
      ensures Weighed(u, r)
    {
      if k < i {
        ChaseSkipsNothing(prefix, i, k, path);
      } else if k > i {
        assert Weighed(t, r);
      }
    }
    if p >= 0 {
      assert Less(RecordPattern(prefix[p]), RecordPattern(prefix[i]));
      AtMostTransitive(prefix[p].pattern, prefix[i].pattern, path);
    }
  }

  /** Patterns sorting after the path do not start it. */
  lemma WalkStart(path: string, rows: seq<Row>, prefix: seq<Record>, low: int, t: Tally)
    requires 0 <= low <= |prefix|
    requires forall k :: low <= k < |prefix| ==> Less(path, prefix[k].pattern)
    ensures Passed(path, rows, prefix, low - 1, t)
  {
    forall k | low <= k < |prefix| ensures !(prefix[k].pattern <= path) {
      if prefix[k].pattern <= path {
        PrefixAtMost(prefix[k].pattern, path);
        LessAsymmetric(path, prefix[k].pattern);
      }
    }
  }
}
