/** Building the mount index and answering from it, with every reservation
    booked on the ledger and every step free to run out of it. */
module MountLookups {
  import opened Text
  import opened Ledger
  import opened MountScan
  import opened MountIndex

  class MountLookup {
    const budget: Budget
    var exact: seq<Record>
    var prefix: seq<Record>
    var booked: nat
    var entries: nat

    /** The ledger holds at least what this index has booked. */
    ghost predicate InLedger()
      reads this, budget
    {
      budget.Valid() && booked <= budget.viewHeap
    }

    /** The finished index describes exactly these rows. */
    ghost predicate Indexes(rows: seq<Row>)
      reads this
    {
      ExactIndex(rows, exact) && PrefixIndex(exact, prefix) && LinkedUpTo(prefix, |prefix|)
    }

    constructor (budget: Budget)
      ensures this.budget == budget && exact == [] && prefix == [] && booked == 0 && entries == 0
    {
      this.budget := budget;
      exact, prefix, booked, entries := [], [], 0, 0;
    }

    method Reserve(size: nat) returns (o: Outcome)
      requires InLedger()
      modifies this`booked, budget`bytes, budget`viewHeap, budget`viewHeapPeak
      ensures InLedger() && (o == Done || OutOfBudget(o))
      ensures booked == old(booked) + (if o == Done then size else 0)
      ensures budget.viewHeap - booked == old(budget.viewHeap - booked)
    {
      o := budget.Charge(size);
      if o != Done { return; }
      o := budget.HeapReserve(size);
      if o != Done { return; }
      booked := booked + size;
    }

    method Release(size: nat)
      requires InLedger() && size <= booked
      modifies this`booked, budget`viewHeap
      ensures InLedger() && booked == old(booked) - size
      ensures budget.viewHeap - booked == old(budget.viewHeap - booked)
    {
      booked := booked - size;
      var o := budget.HeapRelease(size);
      assert o == Done;
    }

    method Close()
      requires InLedger()
      modifies this`exact, this`prefix, this`booked, budget`viewHeap
      ensures InLedger() && exact == [] && prefix == [] && booked == 0
      ensures budget.viewHeap == old(budget.viewHeap - booked)
    {
      exact, prefix := [], [];
      var size := booked;
      booked := 0;
      var o := budget.HeapRelease(size);
      assert o == Done;
    }

    method PatternFor(point: string) returns (o: Outcome, pattern: string)
      requires InLedger()
      modifies this`booked, budget`bytes, budget`viewHeap, budget`viewHeapPeak
      ensures InLedger() && (o == Done || OutOfBudget(o)) && booked >= old(booked)
      ensures budget.viewHeap - booked == old(budget.viewHeap - booked)
      ensures o == Done ==> pattern == Pattern(point)
    {
      o, pattern := Done, "";
      var end := |point|;
      assert point[..end] == point;
      while end > 0 && point[end - 1] == '/'
        modifies {}
        invariant o == Done && 0 <= end <= |point| && Stripped(point) == Stripped(point[..end])
      {
        o := budget.Check();
        if o != Done { return; }
        assert point[..end][..end - 1] == point[..end - 1];
        end := end - 1;
      }
      assert Stripped(point) == point[..end];
      if end == 0 {
        pattern := "/";
      } else if end == |point| {
        o := Reserve(128 + 4 * (end + 1));
        pattern := point + "/";
      } else if end + 1 == |point| {
        StrippedTail(point, end);
        pattern := point;
      } else {
        o := Reserve(128 + 4 * (end + 1));
        StrippedTail(point, end);
        pattern := point[..end + 1];
      }
    }

    method AddRow(row: Row) returns (o: Outcome)
      requires InLedger()
      modifies this`exact, this`booked, this`entries, budget`bytes, budget`viewHeap, budget`viewHeapPeak
      ensures InLedger() && (o == Done || OutOfBudget(o)) && booked >= old(booked)
      ensures budget.viewHeap - booked == old(budget.viewHeap - booked)
      ensures o == Done ==> exact == Recorded(old(exact), row)
    {
      o := budget.Check();
      if o != Done { return; }
      if exact != [] && row.point == exact[|exact| - 1].point {
        var last := exact[|exact| - 1];
        if row != last.row && last.second.None? {
          exact := exact[|exact| - 1 := last.(second := Some(row))];
        }
        return;
      }
      if entries >= MAX_ENTRIES { return Refused(ByteLimit); }
      o := Reserve(512);
      if o != Done { return; }
      entries := entries + 1;
      var pattern;
      o, pattern := PatternFor(row.point);
      if o != Done { return; }
      exact := exact + [Record(row.point, row, None, pattern, -1)];
    }

    method CollectExact(ordered: seq<Row>) returns (o: Outcome)
      requires InLedger() && exact == [] && SortedBy(RowPoint, ordered)
      modifies this`exact, this`booked, this`entries, budget`bytes, budget`viewHeap, budget`viewHeapPeak
      ensures InLedger() && (o == Done || OutOfBudget(o)) && booked >= old(booked)
      ensures budget.viewHeap - booked == old(budget.viewHeap - booked)
      ensures o == Done ==> ExactIndex(ordered, exact) && Unlinked(exact)
    {
      var n := 0;
      while n < |ordered|
        invariant 0 <= n <= |ordered| && InLedger() && booked >= old(booked)
        invariant budget.viewHeap - booked == old(budget.viewHeap - booked)
        invariant RecordsUpTo(ordered, exact, n)
      {
        NextRecorded(ordered, exact, n);
        o := AddRow(ordered[n]);
        if o != Done { return; }
        n := n + 1;
      }
      assert ordered[..n] == ordered;
      o := Done;
    }

    method CollectPrefix(ordered: seq<Record>) returns (o: Outcome)
      requires prefix == [] && SortedBy(RecordPattern, ordered)
      requires Unlinked(ordered)
      modifies this`prefix, this`entries
      ensures o == Done || OutOfBudget(o)
      ensures o == Done ==> PrefixIndex(ordered, prefix)
    {
      var previous: Option<Record> := None;
      var exceptional := false;
      ghost var all: seq<Record> := [];
      var n := 0;
      while n < |ordered|
        invariant 0 <= n <= |ordered| && (previous.None? <==> n == 0)
        invariant all == if previous.Some? then prefix + [previous.value] else prefix
        invariant previous.None? ==> prefix == []
        invariant previous.Some? ==> previous.value.pattern == ordered[n - 1].pattern
        invariant PrefixIndex(ordered[..n], all)
      {
        var record := ordered[n];
        o := budget.Check();
        if o != Done { return; }
        assert ordered[..n + 1] == ordered[..n] + [record];
        if n > 0 { assert AtMost(RecordPattern(ordered[n - 1]), RecordPattern(record)); }
        GroupedIndex(ordered[..n], all, record);
        all := Grouped(all, record);
        if previous.Some? && record.pattern != previous.value.pattern {
          prefix := prefix + [previous.value];
          if exceptional { entries := entries + 1; }
          if entries > MAX_ENTRIES { return Refused(ByteLimit); }
          previous, exceptional := None, false;
        }
        exceptional := exceptional || (record.point != [] && record.point[|record.point| - 1] == '/');
        if previous.None? || |record.point| > |previous.value.point| { previous := Some(record); }
        assert all == prefix + [previous.value];
        n := n + 1;
      }
      assert ordered[..n] == ordered;
      if previous.Some? {
        prefix := prefix + [previous.value];
        if exceptional { entries := entries + 1; }
        if entries > MAX_ENTRIES { return Refused(ByteLimit); }
      }
      o := Done;
    }

    method LinkParents() returns (o: Outcome)
      requires PrefixIndex(exact, prefix)
      modifies this`prefix
      ensures o == Done || OutOfBudget(o)
      ensures o == Done ==> PrefixIndex(exact, prefix) && LinkedUpTo(prefix, |prefix|)
    {
      var index := 0;
      while index < |prefix|
        invariant 0 <= index <= |prefix| && |prefix| == old(|prefix|)
        invariant PrefixIndex(exact, prefix) && LinkedUpTo(prefix, index)
      {
        o := budget.Check();
        if o != Done { return; }
        var record := prefix[index];
        var parent := index - 1;
        while parent >= 0 && !(prefix[parent].pattern <= record.pattern)
          modifies {}
          invariant -1 <= parent < index
          invariant forall j :: parent < j < index && 0 <= j ==> !(prefix[j].pattern <= record.pattern)
        {
          o := budget.Check();
          if o != Done { return; }
          assert Less(RecordPattern(prefix[parent]), RecordPattern(record));
          assert NearestBefore(prefix, parent, prefix[parent].parent, prefix[parent].pattern);
          forall k | prefix[parent].parent < k < parent && 0 <= k
            ensures !(prefix[k].pattern <= record.pattern)
          {
            ChaseSkipsNothing(prefix, parent, k, record.pattern);
          }
          parent := prefix[parent].parent;
        }
        LinkKeepsPrefix(exact, prefix, index, parent);
        LinkKeepsEarlier(prefix, index, parent);
        prefix := prefix[index := record.(parent := parent)];
        index := index + 1;
      }
      o := Done;
    }

    /** First pass: one record per distinct point. `scratch` is the workspace
        still booked when the pass ends. */
    method FillExact(rows: seq<Row>) returns (o: Outcome, scratch: nat)
      requires InLedger() && exact == [] && booked == 0
      modifies this, budget`bytes, budget`viewHeap, budget`viewHeapPeak
      ensures InLedger() && (o == Done || OutOfBudget(o)) && scratch <= booked
      ensures budget.viewHeap - booked == old(budget.viewHeap - booked)
      ensures prefix == old(prefix)
      ensures o == Done ==> ExactIndex(rows, exact) && Unlinked(exact)
    {
      scratch := 0;
      o := Reserve(1024);
      if o != Done { return; }
      var workspace := 48 * |rows| + 4096;
      o := Reserve(workspace);
      if o != Done { return; }
      scratch := workspace;
      var ordered := SortBy(RowPoint, rows);
      SortSorted(RowPoint, rows);
      o := CollectExact(ordered);
      if o != Done { return; }
      ExactOfPermutation(rows, ordered, exact);
    }

    /** Second pass: the heads of the patterns, linked. */
    method FillPrefix() returns (o: Outcome, scratch: nat)
      requires InLedger() && prefix == [] && Unlinked(exact)
      modifies this, budget`bytes, budget`viewHeap, budget`viewHeapPeak
      ensures InLedger() && (o == Done || OutOfBudget(o)) && scratch <= booked
      ensures budget.viewHeap - booked == old(budget.viewHeap - booked)
      ensures exact == old(exact)
      ensures o == Done ==> PrefixIndex(exact, prefix) && LinkedUpTo(prefix, |prefix|)
    {
      scratch := 0;
      var workspace := 48 * |exact| + 4096;
      o := Reserve(workspace);
      if o != Done { return; }
      scratch := workspace;
      var ordered := SortBy(RecordPattern, exact);
      SortSorted(RecordPattern, exact);
      UnlinkedSorted(exact, ordered);
      o := CollectPrefix(ordered);
      if o != Done { return; }
      PrefixOfPermutation(exact, ordered, prefix);
      o := LinkParents();
    }

    /** The whole construction: either the index stands for the rows, or the
        ledger ran out and everything booked is given back. */
    method Build(rows: seq<Row>) returns (o: Outcome)
      requires InLedger() && exact == [] && prefix == [] && booked == 0
      modifies this, budget`bytes, budget`viewHeap, budget`viewHeapPeak
      ensures InLedger() && (o == Done || OutOfBudget(o))
      ensures budget.viewHeap - booked == old(budget.viewHeap)
      ensures o == Done ==> Indexes(rows)
      ensures o != Done ==> booked == 0 && exact == [] && prefix == []
    {
      var scratch;
      o, scratch := FillExact(rows);
      Release(scratch);
      if o == Done {
        o, scratch := FillPrefix();
        Release(scratch);
      }
      if o != Done { Close(); }
    }

    /** First index whose point is not below the path. */
    method SearchExact(path: string) returns (o: Outcome, low: nat)
      requires StrictBy(RecordPoint, exact)
      ensures o == Done || OutOfBudget(o)
      ensures o == Done ==> low <= |exact|
      ensures o == Done ==> forall i :: 0 <= i < low ==> Less(exact[i].point, path)
      ensures o == Done ==> forall i :: low <= i < |exact| ==> !Less(exact[i].point, path)
    {
      o, low := Done, 0;
      var high := |exact|;
      while low < high
        invariant 0 <= low <= high <= |exact| && o == Done
        invariant forall i :: 0 <= i < low ==> Less(exact[i].point, path)
        invariant forall i :: high <= i < |exact| ==> !Less(exact[i].point, path)
      {
        o := budget.Check();
        if o != Done { return; }
        var middle := (low + high) / 2;
        if Less(exact[middle].point, path) {
          forall i | 0 <= i < middle + 1 ensures Less(exact[i].point, path) {
            if i < middle {
              assert Less(RecordPoint(exact[i]), RecordPoint(exact[middle]));
              LessTransitive(exact[i].point, exact[middle].point, path);
            }
          }
          low := middle + 1;
        } else {
          forall i | middle <= i < |exact| ensures !Less(exact[i].point, path) {
            if middle < i && Less(exact[i].point, path) {
              assert Less(RecordPoint(exact[middle]), RecordPoint(exact[i]));
              LessTransitive(exact[middle].point, exact[i].point, path);
            }
          }
          high := middle;
        }
      }
    }

    /** First index whose pattern sorts after the path. */
    method SearchPrefix(path: string) returns (o: Outcome, low: nat)
      requires StrictBy(RecordPattern, prefix)
      ensures o == Done || OutOfBudget(o)
      ensures o == Done ==> low <= |prefix|
      ensures o == Done ==> forall i :: 0 <= i < low ==> AtMost(prefix[i].pattern, path)
      ensures o == Done ==> forall i :: low <= i < |prefix| ==> Less(path, prefix[i].pattern)
    {
      o, low := Done, 0;
      var high := |prefix|;
      while low < high
        invariant 0 <= low <= high <= |prefix| && o == Done
        invariant forall i :: 0 <= i < low ==> AtMost(prefix[i].pattern, path)
        invariant forall i :: high <= i < |prefix| ==> Less(path, prefix[i].pattern)
      {
        o := budget.Check();
        if o != Done { return; }
        var middle := (low + high) / 2;
        var key := prefix[middle].pattern;
        if Less(key, path) || key == path {
          forall i | 0 <= i < middle + 1 ensures AtMost(prefix[i].pattern, path) {
            if i < middle {
              assert Less(RecordPattern(prefix[i]), RecordPattern(prefix[middle]));
              AtMostTransitive(prefix[i].pattern, key, path);
            }
          }
          low := middle + 1;
        } else {
          LessTotal(key, path);
          forall i | middle <= i < |prefix| ensures Less(path, prefix[i].pattern) {
            if middle < i {
              assert Less(RecordPattern(prefix[middle]), RecordPattern(prefix[i]));
              LessTransitive(path, key, prefix[i].pattern);
            }
          }
          high := middle;
        }
      }
    }

    /** The ancestor walk of one lookup. */
    method Walk(path: string, ghost rows: seq<Row>) returns (o: Outcome, t: Tally)
      requires Indexes(rows)
      ensures o == Done || OutOfBudget(o)
      ensures o == Done ==> forall r :: t.best == Some(r) && t.second.None? <==> Closest(path, rows, r)
    {
      t := Tally(None, None, -1);
      var at, low;
      o, at := SearchExact(path);
      if o != Done { return; }
      var candidate: Option<Record> := if at < |exact| && exact[at].point == path then Some(exact[at]) else None;
      ExactCandidate(path, rows, exact, at);
      o, low := SearchPrefix(path);
      if o != Done { return; }
      WalkStart(path, rows, prefix, low, t);
      o, t := Climb(path, rows, candidate, low as int - 1);
    }

    /** From the exact candidate and the last smaller pattern up to the root. */
    method Climb(path: string, ghost rows: seq<Row>, start: Option<Record>, last: int) returns (o: Outcome, t: Tally)
      requires Indexes(rows) && -1 <= last < |prefix| && Passed(path, rows, prefix, last, Tally(None, None, -1))
      requires last >= 0 ==> AtMost(prefix[last].pattern, path)
      requires start.Some? ==> Describes(start.value, rows) && start.value.point == path
      requires start.None? ==> forall r :: r in rows ==> r.point != path
      ensures o == Done || OutOfBudget(o)
      ensures o == Done ==> forall r :: t.best == Some(r) && t.second.None? <==> Closest(path, rows, r)
    {
      o, t := Done, Tally(None, None, -1);
      var candidate, parent := start, last;
      while candidate.Some? || parent >= 0
        invariant o == Done && -1 <= parent < |prefix|
        invariant Summary(path, rows, t) && Passed(path, rows, prefix, parent, t)
        invariant parent >= 0 ==> AtMost(prefix[parent].pattern, path)
        invariant candidate.Some? ==> Describes(candidate.value, rows) && candidate.value.point == path
        invariant candidate.None? ==> forall r :: r in rows && r.point == path ==> Weighed(t, r)
        decreases parent, candidate.Some?
      {
        o := budget.Check();
        if o != Done { return; }
        if candidate.None? {
          HeadStep(path, rows, exact, prefix, parent, t);
          var head := prefix[parent];
          parent := head.parent;
          if head.pattern <= path { t := Weigh(t, head); }
        } else {
          WeighKeeps(path, rows, t, candidate.value);
          t := Weigh(t, candidate.value);
          candidate := None;
        }
      }
      TallyDecides(path, rows, exact, prefix, t);
    }

    /** `MountRows.lookup`: agrees with the linear definition, and leaves the
        ledger as it was. */
    method Lookup(path: string, ghost rows: seq<Row>) returns (o: Outcome, found: Option<Row>)
      requires InLedger() && Indexes(rows)
      modifies budget`bytes, budget`viewHeap, budget`viewHeapPeak
      ensures InLedger() && budget.viewHeap == old(budget.viewHeap)
      ensures o == Done || o == Refused(MountJoinUnknown) || OutOfBudget(o)
      ensures |path| > MAX_PATH ==> o == Refused(ByteLimit)
      ensures o == Done <==> found.Some?
      ensures o == Done ==> Closest(path, rows, found.value)
      ensures o == Refused(MountJoinUnknown) ==> forall r :: !Closest(path, rows, r)
    {
      found := None;
      if |path| > MAX_PATH { return Refused(ByteLimit), None; }
      o := budget.Charge(512);
      if o != Done { return; }
      o := budget.HeapReserve(512);
      if o != Done { return; }
      var t;
      o, t := Walk(path, rows);
      if o == Done {
        if t.best.None? || t.second.Some? {
          o := Refused(MountJoinUnknown);
        } else {
          found := t.best;
        }
      }
      var released := budget.HeapRelease(512);
      assert released == Done;
    }
  }

  lemma HeadDescribes(rows: seq<Row>, exact: seq<Record>, e: Record)
    requires ExactIndex(rows, exact) && Heads(e, exact)
    ensures Describes(e, rows)
  {
    var i :| 0 <= i < |exact| && exact[i] == e.(parent := -1);
    assert Describes(exact[i], rows);
  }

  /** One step of the ancestor walk keeps what the walk knows. */
  lemma HeadStep(path: string, rows: seq<Row>, exact: seq<Record>, prefix: seq<Record>, i: int, t: Tally)
    requires ExactIndex(rows, exact) && PrefixIndex(exact, prefix) && LinkedUpTo(prefix, |prefix|)
    requires 0 <= i < |prefix| && AtMost(prefix[i].pattern, path)
    requires Summary(path, rows, t) && Passed(path, rows, prefix, i, t)
    ensures -1 <= prefix[i].parent < i
    ensures prefix[i].parent >= 0 ==> AtMost(prefix[prefix[i].parent].pattern, path)
    ensures
      var u := if prefix[i].pattern <= path then Weigh(t, prefix[i]) else t;
      && Summary(path, rows, u) && Passed(path, rows, prefix, prefix[i].parent, u)
      && forall r :: Weighed(t, r) ==> Weighed(u, r)
  {
    var head := prefix[i];
    if head.pattern <= path {
      assert Heads(head, exact);
      HeadDescribes(rows, exact, head);
      WeighKeeps(path, rows, t, head);
      forall r | r in rows && Pattern(r.point) == head.pattern ensures Weighed(Weigh(t, head), r) {
        HeadCoversPattern(path, rows, exact, t, head, r);
      }
      WalkStep(path, rows, prefix, i, t, Weigh(t, head));
    } else {
      WalkStep(path, rows, prefix, i, t, t);
    }
  }

  /** Bisection finds the record of the path itself, if there is one. */
  lemma ExactCandidate(path: string, rows: seq<Row>, exact: seq<Record>, at: nat)
    requires ExactIndex(rows, exact) && at <= |exact|
    requires forall i :: 0 <= i < at ==> Less(exact[i].point, path)
    requires forall i :: at <= i < |exact| ==> !Less(exact[i].point, path)
    ensures at < |exact| ==> Describes(exact[at], rows)
    ensures !(at < |exact| && exact[at].point == path) ==> forall r :: r in rows ==> r.point != path
  {
    forall r | r in rows && r.point == path ensures at < |exact| && exact[at].point == path {
      assert HasPoint(exact, r.point);
      var i :| 0 <= i < |exact| && exact[i].point == path;
      LessIrreflexive(path);
      assert at <= i;
      assert at < i ==> Less(RecordPoint(exact[at]), RecordPoint(exact[i]));
    }
  }

  lemma UnlinkedSorted(exact: seq<Record>, ordered: seq<Record>)
    requires multiset(exact) == multiset(ordered) && Unlinked(exact)
    ensures Unlinked(ordered)
  {
    SameElements(exact, ordered);
    forall i | 0 <= i < |ordered| ensures ordered[i].parent == -1 {
      assert ordered[i] in exact;
    }
  }

  lemma LinkKeepsEarlier(prefix: seq<Record>, k: nat, p: int)
    requires k < |prefix| && LinkedUpTo(prefix, k) && NearestBefore(prefix, k, p, prefix[k].pattern)
    ensures LinkedUpTo(prefix[k := prefix[k].(parent := p)], k + 1)
  {
    var prefix' := prefix[k := prefix[k].(parent := p)];
    assert forall i :: 0 <= i < |prefix| ==> prefix'[i].pattern == prefix[i].pattern;
    forall i | 0 <= i < k + 1 ensures NearestBefore(prefix', i, prefix'[i].parent, prefix'[i].pattern) {
      if i < k { assert NearestBefore(prefix, i, prefix[i].parent, prefix[i].pattern); }
    }
  }
}
