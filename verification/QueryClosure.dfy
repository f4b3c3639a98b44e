/** The query tool's set of ELF files: accepted exactly when it is the closure of
    the program under its interpreter and needed names. */
module QueryClosure {
  import opened Text

  datatype Row = Row(path: string, soname: string, needed: seq<string>, interpreter: Option<string>)

  const PROGRAM := "/usr/bin/nsenter"
  const LOADER := "/usr/lib/x86_64-linux-gnu/ld-linux-x86-64.so.2"
  const INTERPRETER := "/lib64/ld-linux-x86-64.so.2"
  const LOADER_NAME := "ld-linux-x86-64.so.2"
  const MAX_ROWS := 64

  type Index = map<string, Row>

  // ---- indexes -------------------------------------------------------------

  function PathOf(row: Row): string { row.path }

  function NameOf(row: Row): string { row.soname }

  /** A later row replaces an earlier one under the same key. */
  function IndexBy(rows: seq<Row>, key: Row -> string): (m: Index) {
    if rows == [] then map[]
    else IndexBy(rows[..|rows| - 1], key)[key(rows[|rows| - 1]) := rows[|rows| - 1]]
  }

  /** The rows that carry a soname. */
  function Named(rows: seq<Row>): (named: seq<Row>)
    ensures forall row :: row in named <==> row in rows && row.soname != ""
  {
    if rows == [] then []
    else
      var init, last := Named(rows[..|rows| - 1]), rows[|rows| - 1];
      assert rows == rows[..|rows| - 1] + [last];
      if last.soname == "" then init else init + [last]
  }

  predicate DistinctBy(rows: seq<Row>, key: Row -> string) {
    forall i, j :: 0 <= i < j < |rows| ==> key(rows[i]) != key(rows[j])
  }

  lemma {:induction false} IndexFinds(rows: seq<Row>, key: Row -> string)
    ensures forall k :: k in IndexBy(rows, key) ==> IndexBy(rows, key)[k] in rows && key(IndexBy(rows, key)[k]) == k
    ensures forall row :: row in rows ==> key(row) in IndexBy(rows, key)
  {
    if rows != [] {
      IndexFinds(rows[..|rows| - 1], key);
      assert rows == rows[..|rows| - 1] + [rows[|rows| - 1]];
    }
  }

  lemma DistinctStep(init: seq<Row>, last: Row, key: Row -> string)
    ensures DistinctBy(init + [last], key) <==> DistinctBy(init, key) && forall row :: row in init ==> key(row) != key(last)
  {
    var rows := init + [last];
    assert forall i :: 0 <= i < |init| ==> rows[i] == init[i];
    assert rows[|init|] == last;
    if DistinctBy(rows, key) {
      forall row | row in init ensures key(row) != key(last) {
        var i :| 0 <= i < |init| && init[i] == row;
        assert key(rows[i]) != key(rows[|init|]);
      }
    }
  }

  lemma IndexGrows(m: Index, k: string, row: Row)
    ensures |m[k := row]| == |m| + if k in m then 0 else 1
  {
    assert m[k := row].Keys == m.Keys + {k};
    assert |m[k := row]| == |m[k := row].Keys| && |m| == |m.Keys|;
    assert k in m ==> m.Keys + {k} == m.Keys;
  }

  lemma KeyTaken(init: seq<Row>, last: Row, key: Row -> string)
    ensures key(last) in IndexBy(init, key) <==> !forall row :: row in init ==> key(row) != key(last)
  {
    IndexFinds(init, key);
  }

  /** The index is as large as the rows exactly when no two share a key. */
  lemma {:induction false} IndexSize(rows: seq<Row>, key: Row -> string)
    ensures |IndexBy(rows, key)| <= |rows|
    ensures |IndexBy(rows, key)| == |rows| <==> DistinctBy(rows, key)
  {
    if rows != [] {
      var init, last := rows[..|rows| - 1], rows[|rows| - 1];
      IndexSize(init, key);
      IndexGrows(IndexBy(init, key), key(last), last);
      KeyTaken(init, last, key);
      DistinctStep(init, last, key);
      assert rows == init + [last];
    }
  }

  lemma IndexHolds(rows: seq<Row>, key: Row -> string)
    requires DistinctBy(rows, key)
    ensures forall row :: row in rows ==> key(row) in IndexBy(rows, key) && IndexBy(rows, key)[key(row)] == row
  {
    IndexFinds(rows, key);
  }

  // ---- edges and reachability ----------------------------------------------

  /** Everything the row names is in the set. */
  predicate Resolves(names: Index, row: Row) {
    && (row.interpreter.Some? ==> row.interpreter.value == INTERPRETER)
    && forall i :: 0 <= i < |row.needed| ==> row.needed[i] in names
  }

  predicate Edge(paths: Index, names: Index, p: string, q: string) {
    && p in paths
    && ((paths[p].interpreter == Some(INTERPRETER) && q == LOADER) || Needs(names, paths[p].needed, q))
  }

  predicate Needs(names: Index, needed: seq<string>, q: string) {
    exists i :: 0 <= i < |needed| && needed[i] in names && names[needed[i]].path == q
  }

  ghost predicate Walk(paths: Index, names: Index, walk: seq<string>) {
    walk != [] && forall i, j :: 0 <= i && j == i + 1 && j < |walk| ==> Edge(paths, names, walk[i], walk[j])
  }

  ghost predicate Reach(paths: Index, names: Index, from: string, to: string) {
    exists walk :: Walk(paths, names, walk) && walk[0] == from && walk[|walk| - 1] == to
  }

  lemma ReachSelf(paths: Index, names: Index, p: string)
    ensures Reach(paths, names, p, p)
  {
    assert Walk(paths, names, [p]) && [p][0] == p;
  }

  lemma ReachStep(paths: Index, names: Index, p: string, q: string, r: string)
    requires Edge(paths, names, p, q) && Reach(paths, names, q, r)
    ensures Reach(paths, names, p, r)
  {
    var walk :| Walk(paths, names, walk) && walk[0] == q && walk[|walk| - 1] == r;
    var longer := [p] + walk;
    assert Walk(paths, names, longer) && longer[0] == p && longer[|longer| - 1] == r;
  }

  /** Whatever `p` leads to is in `s`. */
  ghost predicate Leads(paths: Index, names: Index, p: string, s: set<string>) {
    forall q :: Edge(paths, names, p, q) ==> q in s
  }

  /** A set that follows every edge holds whatever its members reach. */
  lemma {:induction false} ClosedHoldsWalk(paths: Index, names: Index, s: set<string>, walk: seq<string>)
    requires Walk(paths, names, walk) && walk[0] in s
    requires forall p :: p in s ==> Leads(paths, names, p, s)
    ensures walk[|walk| - 1] in s
  {
    if |walk| > 1 {
      assert Edge(paths, names, walk[0], walk[1]);
      ClosedHoldsWalk(paths, names, s, walk[1..]);
    }
  }

  // ---- the visit -----------------------------------------------------------

  ghost predicate Settled(paths: Index, names: Index, from: string, p: string, s: set<string>) {
    p in paths && Resolves(names, paths[p]) && Reach(paths, names, from, p) && Leads(paths, names, p, s)
  }

  /** What a visit from `path` adds to `before`, `path` itself still under way. */
  ghost predicate Under(paths: Index, names: Index, before: set<string>, after: set<string>, path: string) {
    && before + {path} <= after <= paths.Keys
    && forall p :: p in after && p !in before && p != path ==> Settled(paths, names, path, p, after)
  }

  ghost predicate Visited(paths: Index, names: Index, before: set<string>, after: set<string>, path: string) {
    && before + {path} <= after <= paths.Keys
    && forall p :: p in after && p !in before ==> Settled(paths, names, path, p, after)
  }

  /** A row whose names do not all resolve, reached from `path`. */
  ghost predicate Dangling(paths: Index, names: Index, path: string) {
    exists p :: p in paths && !Resolves(names, paths[p]) && Reach(paths, names, path, p)
  }

  lemma Absorb(paths: Index, names: Index, before: set<string>, mid: set<string>, after: set<string>, path: string, q: string)
    requires Edge(paths, names, path, q)
    requires Under(paths, names, before, mid, path) && Visited(paths, names, mid, after, q)
    ensures Under(paths, names, before, after, path) && q in after
  {
    forall p | p in after && p !in before && p != path ensures Settled(paths, names, path, p, after) {
      if p in mid {
        assert Settled(paths, names, path, p, mid);
      } else {
        assert Settled(paths, names, q, p, after);
        ReachStep(paths, names, path, q, p);
      }
    }
  }

  lemma DanglingBack(paths: Index, names: Index, p: string, q: string)
    requires Edge(paths, names, p, q) && Dangling(paths, names, q)
    ensures Dangling(paths, names, p)
  {
    var r :| r in paths && !Resolves(names, paths[r]) && Reach(paths, names, q, r);
    ReachStep(paths, names, p, q, r);
  }

  /** Both indexes name rows of the set, and the loader is one of them. */
  predicate Indexed(paths: Index, names: Index) {
    LOADER in paths && |paths| <= MAX_ROWS && forall n :: n in names ==> names[n].path in paths
  }

  method Visit(paths: Index, names: Index, path: string, visited: set<string>) returns (ok: bool, after: set<string>)
    requires Indexed(paths, names) && visited <= paths.Keys && path in paths
    ensures ok ==> Visited(paths, names, visited, after, path)
    ensures !ok ==> Dangling(paths, names, path)
    decreases paths.Keys - visited
  {
    ReachSelf(paths, names, path);
    ok, after := true, visited;
    if path in visited { return; }
    var row := paths[path];
    after := visited + {path};
    if row.interpreter.Some? {
      if row.interpreter.value != INTERPRETER { return false, after; }
      ok, after := VisitNext(paths, names, path, visited, after, LOADER);
      if !ok { return; }
    }
    for i := 0 to |row.needed|
      invariant Under(paths, names, visited, after, path)
      invariant row.interpreter.Some? ==> row.interpreter.value == INTERPRETER && LOADER in after
      invariant forall k :: 0 <= k < i ==> row.needed[k] in names && names[row.needed[k]].path in after
    {
      if row.needed[i] !in names { return false, after; }
      ok, after := VisitNext(paths, names, path, visited, after, names[row.needed[i]].path);
      if !ok { return; }
    }
    assert Leads(paths, names, path, after);
  }

  /** One edge of a visit that is under way. */
  method VisitNext(paths: Index, names: Index, path: string, ghost before: set<string>, mid: set<string>, q: string)
    returns (ok: bool, after: set<string>)
    requires Indexed(paths, names) && q in paths && path !in before
    requires Under(paths, names, before, mid, path) && Edge(paths, names, path, q)
    ensures ok ==> Under(paths, names, before, after, path) && mid <= after && q in after
    ensures !ok ==> Dangling(paths, names, path)
    decreases paths.Keys - before, 0
  {
    ok, after := Visit(paths, names, q, mid);
    if ok { Absorb(paths, names, before, mid, after, path, q); } else { DanglingBack(paths, names, path, q); }
  }

  // ---- the whole check -----------------------------------------------------

  /** The rows named, sized and anchored as the check asks. */
  ghost predicate Anchored(rows: seq<Row>) {
    && 1 < |rows| <= MAX_ROWS
    && DistinctBy(rows, PathOf) && DistinctBy(Named(rows), NameOf)
    && HasProgram(rows) && HasLoader(rows)
  }

  predicate HasProgram(rows: seq<Row>) {
    exists row :: row in rows && row.path == PROGRAM && row.interpreter == Some(INTERPRETER)
  }

  predicate HasLoader(rows: seq<Row>) {
    exists row :: row in rows && row.path == LOADER && row.soname == LOADER_NAME && row.needed == []
  }

  ghost predicate AllReached(paths: Index, names: Index) {
    forall p :: p in paths ==> Resolves(names, paths[p]) && Reach(paths, names, PROGRAM, p)
  }

  /** Every name resolves inside the set, every row is reached from the program,
      and there is something to preload. */
  ghost predicate Closed(rows: seq<Row>) {
    && Anchored(rows)
    && AllReached(IndexBy(rows, PathOf), IndexBy(Named(rows), NameOf))
    && exists row :: row in rows && row.path != PROGRAM && row.path != LOADER
  }

  lemma DanglingNotReached(paths: Index, names: Index)
    requires Dangling(paths, names, PROGRAM)
    ensures !AllReached(paths, names)
  {
  }

  /** The paths other than the program and the loader, in row order. */
  function Others(rows: seq<Row>): (others: seq<string>) {
    if rows == [] then []
    else
      var init, last := Others(rows[..|rows| - 1]), rows[|rows| - 1].path;
      if last == PROGRAM || last == LOADER then init else init + [last]
  }

  lemma {:induction false} OthersOf(rows: seq<Row>, p: string)
    ensures p in Others(rows) <==> p != PROGRAM && p != LOADER && exists row :: row in rows && row.path == p
  {
    if rows != [] {
      OthersOf(rows[..|rows| - 1], p);
      assert rows == rows[..|rows| - 1] + [rows[|rows| - 1]];
    }
  }

  lemma OthersEmpty(rows: seq<Row>)
    ensures Others(rows) != [] <==> exists row :: row in rows && row.path != PROGRAM && row.path != LOADER
  {
    if Others(rows) != [] { OthersOf(rows, Others(rows)[0]); }
    forall row | row in rows && row.path != PROGRAM && row.path != LOADER ensures row.path in Others(rows) {
      OthersOf(rows, row.path);
    }
  }

  lemma {:induction false} OthersDistinct(rows: seq<Row>)
    requires DistinctBy(rows, PathOf)
    ensures Distinct(Others(rows))
  {
    if rows != [] {
      var init, last := rows[..|rows| - 1], rows[|rows| - 1];
      assert rows == init + [last];
      DistinctStep(init, last, PathOf);
      OthersDistinct(init);
      OthersOf(init, last.path);
      assert forall row :: row in init ==> PathOf(row) != PathOf(last);
    }
  }

  /** The preload list: in strictly increasing order, each other path once. */
  lemma Preloads(rows: seq<Row>)
    requires DistinctBy(rows, PathOf)
    ensures StrictBy(Itself, SortBy(Itself, Others(rows)))
    ensures forall p :: p in SortBy(Itself, Others(rows)) <==> p in IndexBy(rows, PathOf) && p != PROGRAM && p != LOADER
  {
    var sorted := SortBy(Itself, Others(rows));
    OthersDistinct(rows);
    SortSorted(Itself, Others(rows));
    DistinctRearranged(Others(rows), sorted);
    SameElements(Others(rows), sorted);
    IndexFinds(rows, PathOf);
    forall p ensures p in sorted <==> p in IndexBy(rows, PathOf) && p != PROGRAM && p != LOADER {
      OthersOf(rows, p);
      if exists row :: row in rows && row.path == p {
        var row :| row in rows && row.path == p;
        assert PathOf(row) == p;
      }
    }
  }

  lemma SameSize(a: set<string>, b: set<string>)
    requires a <= b && |a| == |b|
    ensures a == b
  {
    assert b == a + (b - a);
  }

  /** A finished visit holds every row exactly when every row is reached and resolves. */
  lemma AllVisited(paths: Index, names: Index, visited: set<string>)
    requires Visited(paths, names, {}, visited, PROGRAM)
    ensures visited == paths.Keys <==> AllReached(paths, names)
  {
    assert forall q :: q in visited ==> Settled(paths, names, PROGRAM, q, visited);
    if AllReached(paths, names) {
      forall p | p in paths ensures p in visited {
        var walk :| Walk(paths, names, walk) && walk[0] == PROGRAM && walk[|walk| - 1] == p;
        ClosedHoldsWalk(paths, names, visited, walk);
      }
    }
  }

  /** The source's checks before the visit, on the two indexes. */
  predicate Anchors(rows: seq<Row>, paths: Index, names: Index) {
    && |paths| == |rows| && |names| == |Named(rows)| && PROGRAM in paths && LOADER in paths
    && paths[PROGRAM].interpreter == Some(INTERPRETER)
    && paths[LOADER].soname == LOADER_NAME && paths[LOADER].needed == []
  }

  lemma AnchorsHold(rows: seq<Row>)
    ensures 1 < |rows| <= MAX_ROWS && Anchors(rows, IndexBy(rows, PathOf), IndexBy(Named(rows), NameOf)) <==> Anchored(rows)
    ensures Anchored(rows) ==> Indexed(IndexBy(rows, PathOf), IndexBy(Named(rows), NameOf))
  {
    IndexFinds(rows, PathOf); IndexSize(rows, PathOf);
    IndexFinds(Named(rows), NameOf); IndexSize(Named(rows), NameOf);
    if DistinctBy(rows, PathOf) {
      IndexHolds(rows, PathOf);
      AnchorRows(rows, IndexBy(rows, PathOf));
      NamesInPaths(rows);
    }
  }

  lemma AnchorRows(rows: seq<Row>, paths: Index)
    requires forall row :: row in rows ==> PathOf(row) in paths && paths[PathOf(row)] == row
    requires forall p :: p in paths ==> paths[p] in rows && PathOf(paths[p]) == p
    ensures HasProgram(rows) <==> PROGRAM in paths && paths[PROGRAM].interpreter == Some(INTERPRETER)
    ensures HasLoader(rows) <==> LOADER in paths && paths[LOADER].soname == LOADER_NAME && paths[LOADER].needed == []
  {
  }

  lemma NamesInPaths(rows: seq<Row>)
    ensures forall n :: n in IndexBy(Named(rows), NameOf) ==> IndexBy(Named(rows), NameOf)[n].path in IndexBy(rows, PathOf)
  {
    IndexFinds(rows, PathOf);
    IndexFinds(Named(rows), NameOf);
    forall n | n in IndexBy(Named(rows), NameOf) ensures IndexBy(Named(rows), NameOf)[n].path in IndexBy(rows, PathOf) {
      assert PathOf(IndexBy(Named(rows), NameOf)[n]) in IndexBy(rows, PathOf);
    }
  }

  /** The check accepts exactly the closed sets, and preloads each other file once. */
  method Preload(rows: seq<Row>) returns (r: Option<seq<string>>)
    ensures r.Some? <==> Closed(rows)
    ensures r.Some? ==> StrictBy(Itself, r.value)
    ensures r.Some? ==> forall p :: p in r.value <==> p in IndexBy(rows, PathOf) && p != PROGRAM && p != LOADER
  {
    r := None;
    if !(1 < |rows| <= MAX_ROWS) { return; }
    var paths, names := IndexBy(rows, PathOf), IndexBy(Named(rows), NameOf);
    AnchorsHold(rows);
    if !Anchors(rows, paths, names) { return; }
    var ok, visited := Visit(paths, names, PROGRAM, {});
    if !ok {
      DanglingNotReached(paths, names);
      return;
    }
    AllVisited(paths, names, visited);
    if |visited| == |paths| { SameSize(visited, paths.Keys); }
    if |visited| != |rows| { return; }
    var preload := Others(rows);
    OthersEmpty(rows);
    if preload == [] { return; }
    r := Some(SortBy(Itself, preload));
    Preloads(rows);
  }
}
