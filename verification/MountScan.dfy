/** Which mount covers a path: the plain definition, kept beside the index. */
module MountScan {
  import opened Text

  /** A mount table row; `ident` is the identity of the row object, so equal
      values are the same object. */
  datatype Row = Row(ident: nat, dev: nat, root: string, point: string)

  function RowPoint(r: Row): string { r.point }

  /** `s.rstrip('/')` */
  function Stripped(s: string): (r: string)
    ensures r <= s
    ensures r != [] ==> r[|r| - 1] != '/'
  {
    if s != [] && s[|s| - 1] == '/' then Stripped(s[..|s| - 1]) else s
  }

  /** The text every path strictly beneath a mount point starts with. */
  function Pattern(point: string): (r: string) {
    Stripped(point) + "/"
  }

  predicate Beneath(path: string, root: string) {
    path == root || Pattern(root) <= path
  }

  function Candidates(path: string, rows: seq<Row>): (r: seq<Row>) {
    if rows == [] then []
    else (if Beneath(path, rows[0].point) then [rows[0]] else []) + Candidates(path, rows[1..])
  }

  function Longest(rows: seq<Row>): (n: int)
    ensures forall r :: r in rows ==> |r.point| <= n
    ensures rows != [] ==> exists r :: r in rows && |r.point| == n
  {
    if rows == [] then -1
    else
      var n := Longest(rows[1..]);
      assert forall r :: r in rows ==> r == rows[0] || r in rows[1..];
      if n < |rows[0].point| then |rows[0].point| else n
  }

  function OfLength(rows: seq<Row>, n: int): (r: seq<Row>) {
    if rows == [] then []
    else (if |rows[0].point| == n then [rows[0]] else []) + OfLength(rows[1..], n)
  }

  /** The linear join: the one candidate whose mount point is longest, if any. */
  function Scan(path: string, rows: seq<Row>): (r: Option<Row>) {
    var candidates := Candidates(path, rows);
    var selected := OfLength(candidates, Longest(candidates));
    if |selected| == 1 then Some(selected[0]) else None
  }

  /** What the join is for: the row object that covers the path more closely
      than every other row object. */
  predicate Closest(path: string, rows: seq<Row>, r: Row) {
    && r in rows && Beneath(path, r.point)
    && forall s :: s in rows && s != r && Beneath(path, s.point) ==> |s.point| < |r.point|
  }

  /** Beneath a root lie the root itself and every path that continues its parts. */
  lemma BeneathByParts(path: string, root: string)
    ensures Beneath(path, root) <==>
            path == root || (path != Stripped(root) && Split(Stripped(root), '/') <= Split(path, '/'))
  {
    StartsByParts(Stripped(root), path);
    assert |Pattern(root)| == |Stripped(root)| + 1;
  }

  // ---- slash patterns ------------------------------------------------------

  lemma {:induction false} StrippedTail(s: string, k: nat)
    requires |Stripped(s)| <= k < |s|
    ensures s[k] == '/'
  {
    if k < |s| - 1 { StrippedTail(s[..|s| - 1], k); }
  }

  /** Trailing spellings of one pattern differ in length only. */
  lemma SamePatternSameLength(a: string, b: string)
    requires Pattern(a) == Pattern(b) && |a| == |b|
    ensures a == b
  {
    assert Stripped(a) == Pattern(a)[..|Pattern(a)| - 1];
    assert Stripped(b) == Pattern(b)[..|Pattern(b)| - 1];
    forall k | 0 <= k < |a|
      ensures a[k] == b[k]
    {
      if k < |Stripped(a)| {
        assert a[k] == Stripped(a)[k] && b[k] == Stripped(b)[k];
      } else {
        StrippedTail(a, k);
        StrippedTail(b, k);
      }
    }
  }

  // ---- the scan returns the closest row, counted once ----------------------

  lemma {:induction false} CandidatesCount(path: string, rows: seq<Row>, r: Row)
    ensures multiset(Candidates(path, rows))[r] == (if Beneath(path, r.point) then multiset(rows)[r] else 0)
  {
    if rows != [] {
      CandidatesCount(path, rows[1..], r);
      assert rows == [rows[0]] + rows[1..];
    }
  }

  lemma {:induction false} OfLengthCount(rows: seq<Row>, n: int, r: Row)
    ensures multiset(OfLength(rows, n))[r] == (if |r.point| == n then multiset(rows)[r] else 0)
  {
    if rows != [] {
      OfLengthCount(rows[1..], n, r);
      assert rows == [rows[0]] + rows[1..];
    }
  }

  function Selected(path: string, rows: seq<Row>): (r: seq<Row>) {
    OfLength(Candidates(path, rows), Longest(Candidates(path, rows)))
  }

  lemma InCandidates(path: string, rows: seq<Row>, r: Row)
    ensures r in Candidates(path, rows) <==> r in rows && Beneath(path, r.point)
  {
    CandidatesCount(path, rows, r);
    assert r in Candidates(path, rows) <==> r in multiset(Candidates(path, rows));
    assert r in rows <==> r in multiset(rows);
  }

  lemma InSelected(path: string, rows: seq<Row>, r: Row)
    ensures multiset(Selected(path, rows))[r] ==
            (if Beneath(path, r.point) && |r.point| == Longest(Candidates(path, rows)) then multiset(rows)[r] else 0)
  {
    CandidatesCount(path, rows, r);
    OfLengthCount(Candidates(path, rows), Longest(Candidates(path, rows)), r);
  }

  lemma ScanOnlyClosest(path: string, rows: seq<Row>, r: Row)
    requires Scan(path, rows) == Some(r)
    ensures Closest(path, rows, r) && multiset(rows)[r] == 1
  {
    var selected := Selected(path, rows);
    assert selected == [r] && multiset(selected)[r] == 1;
    InSelected(path, rows, r);
    assert r in multiset(rows);
    forall s | s in rows && s != r && Beneath(path, s.point)
      ensures |s.point| < |r.point|
    {
      InCandidates(path, rows, s);
      InSelected(path, rows, s);
      assert multiset(selected)[s] == 0 && s in multiset(rows);
    }
  }

  lemma ClosestIsScanned(path: string, rows: seq<Row>, r: Row)
    requires Closest(path, rows, r) && multiset(rows)[r] == 1
    ensures Scan(path, rows) == Some(r)
  {
    var selected := Selected(path, rows);
    LongestIsClosest(path, rows, r);
    InSelected(path, rows, r);
    forall s | s in selected ensures s == r { OnlyClosestSelected(path, rows, r, s); }
    assert selected == [r] by {
      OneKindCount(selected, r);
      assert selected[0] in selected;
    }
    SelectedIsScanned(path, rows, r);
  }

  lemma SelectedIsScanned(path: string, rows: seq<Row>, r: Row)
    requires Selected(path, rows) == [r]
    ensures Scan(path, rows) == Some(r)
  {
  }

  lemma OnlyClosestSelected(path: string, rows: seq<Row>, r: Row, s: Row)
    requires Closest(path, rows, r) && Longest(Candidates(path, rows)) == |r.point| && s in Selected(path, rows)
    ensures s == r
  {
    assert s in multiset(Selected(path, rows));
    InSelected(path, rows, s);
    assert s in multiset(rows);
  }

  lemma LongestIsClosest(path: string, rows: seq<Row>, r: Row)
    requires Closest(path, rows, r)
    ensures Longest(Candidates(path, rows)) == |r.point|
  {
    InCandidates(path, rows, r);
    var top :| top in Candidates(path, rows) && |top.point| == Longest(Candidates(path, rows));
    InCandidates(path, rows, top);
  }

  /** The linear scan returns r exactly when r is the closest row and its
      object stands in the list once. */
  lemma ScanIsClosest(path: string, rows: seq<Row>, r: Row)
    ensures Scan(path, rows) == Some(r) <==> Closest(path, rows, r) && multiset(rows)[r] == 1
  {
    if Scan(path, rows) == Some(r) { ScanOnlyClosest(path, rows, r); }
    if Closest(path, rows, r) && multiset(rows)[r] == 1 { ClosestIsScanned(path, rows, r); }
  }

  lemma {:induction false} OneKindCount<T>(s: seq<T>, x: T)
    requires forall y :: y in s ==> y == x
    ensures multiset(s)[x] == |s|
  {
    if s != [] {
      assert s[0] in s && s == [s[0]] + s[1..];
      assert forall y :: y in s[1..] ==> y in s;
      OneKindCount(s[1..], x);
    }
  }

  /** In a list of distinct row objects every row stands once. */
  lemma {:induction false} DistinctCount(rows: seq<Row>, r: Row)
    requires Distinct(rows) && r in rows
    ensures multiset(rows)[r] == 1
  {
    assert rows == [rows[0]] + rows[1..];
    if r in rows[1..] {
      DistinctCount(rows[1..], r);
    } else {
      assert r !in multiset(rows[1..]);
    }
  }
}
